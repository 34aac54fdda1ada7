/**
 * The records of the names dataset, the vote attached to them, and the
 * composite string key `year-gender-name` under which a vote is stored.
 */
module Names {
  import opened Wrappers

  /** The two values of a record's `gender` field. */
  datatype Gender = Girl | Boy

  /** One record of the dataset: `{ name, gender, year }`. */
  datatype NameRecord = NameRecord(name: string, gender: Gender, year: int)

  /** The tag handed to the vote handler: the thumbs-up button passes "up", thumbs-down "down". */
  datatype VoteTag = Up | Down

  /** `{ ...currentName, vote: voteType }`: a record extended with its vote. */
  datatype VoteEntry = VoteEntry(record: NameRecord, vote: VoteTag)

  function GenderText(g: Gender): string {
    match g
    case Girl => "Girl"
    case Boy => "Boy"
  }

  function ParseGender(s: string): (g: Option<Gender>)
    ensures g.Some? <==> s == "Girl" || s == "Boy"
    ensures g.Some? ==> GenderText(g.value) == s
  {
    if s == "Girl" then Some(Girl) else if s == "Boy" then Some(Boy) else None
  }

  predicate IsDigit(c: char) {
    '0' <= c <= '9'
  }

  predicate AllDigits(s: string) {
    forall j :: 0 <= j < |s| ==> IsDigit(s[j])
  }

  function DigitChar(d: nat): (c: char)
    requires d < 10
    ensures IsDigit(c) && (c as int) - ('0' as int) == d
  {
    (('0' as int) + d) as char
  }

  /** The decimal digits of n, most significant first. */
  function NatText(n: nat): (s: string)
    ensures |s| > 0 && AllDigits(s)
    decreases n
  {
    if n < 10 then [DigitChar(n)] else NatText(n / 10) + [DigitChar(n % 10)]
  }

  /** The value of a string of decimal digits, read most significant first. */
  function ParseNat(s: string): nat
    requires AllDigits(s)
  {
    if s == [] then 0
    else ParseNat(s[..|s| - 1]) * 10 + ((s[|s| - 1] as int) - ('0' as int))
  }

  lemma {:induction false} ParseNatText(n: nat)
    ensures ParseNat(NatText(n)) == n
    decreases n
  {
    if n >= 10 {
      var s := NatText(n);
      assert s[..|s| - 1] == NatText(n / 10);
      ParseNatText(n / 10);
    }
  }

  /** The template-literal form `${year}` of an integral year: a minus sign, then the digits. */
  function IntText(i: int): string {
    if i < 0 then "-" + NatText(-i) else NatText(i)
  }

  /** The key a vote is stored under: `${year}-${gender}-${name}`. */
  function Key(r: NameRecord): string {
    IntText(r.year) + "-" + GenderText(r.gender) + "-" + r.name
  }

  /** The position of the first '-' in s, or |s| when there is none. */
  function FirstDash(s: string): (j: nat)
    ensures j <= |s|
    ensures forall m :: 0 <= m < j ==> s[m] != '-'
    ensures j < |s| ==> s[j] == '-'
  {
    if s == [] then 0 else if s[0] == '-' then 0 else 1 + FirstDash(s[1..])
  }

  /** Splits off a leading minus sign. */
  function SplitSign(s: string): (bool, string) {
    if |s| > 0 && s[0] == '-' then (true, s[1..]) else (false, s)
  }

  /** Reads the digits in front of the first '-' and returns their value and what follows the '-'. */
  function SplitNumber(s: string): Option<(nat, string)> {
    var d := FirstDash(s);
    if d == 0 || d == |s| || !AllDigits(s[..d]) then None
    else Some((ParseNat(s[..d]), s[d + 1..]))
  }

  /** Reads the gender in front of the first '-' and returns it with what follows the '-'. */
  function SplitGender(s: string): Option<(Gender, string)> {
    var g := FirstDash(s);
    if g == |s| then None
    else
      match ParseGender(s[..g])
      case None => None
      case Some(gender) => Some((gender, s[g + 1..]))
  }

  /** Reads a key back into the record it was built from, or None when s is not of that shape. */
  function ParseKey(s: string): Option<NameRecord> {
    var (negative, rest) := SplitSign(s);
    match SplitNumber(rest)
    case None => None
    case Some((n, tail)) =>
      match SplitGender(tail)
      case None => None
      case Some((gender, name)) => Some(NameRecord(name, gender, if negative then -(n as int) else n))
  }

  lemma FirstDashAt(a: string, b: string)
    requires forall m :: 0 <= m < |a| ==> a[m] != '-'
    ensures FirstDash(a + "-" + b) == |a|
  {
    assert (a + "-" + b)[|a|] == '-';
  }

  lemma SplitNumberOf(n: nat, b: string)
    ensures SplitNumber(NatText(n) + "-" + b) == Some((n, b))
  {
    var digits := NatText(n);
    forall m | 0 <= m < |digits| ensures digits[m] != '-' {
      assert IsDigit(digits[m]);
    }
    FirstDashAt(digits, b);
    var s := digits + "-" + b;
    assert s[..|digits|] == digits;
    assert s[|digits| + 1..] == b;
    ParseNatText(n);
  }

  lemma SplitGenderOf(g: Gender, b: string)
    ensures SplitGender(GenderText(g) + "-" + b) == Some((g, b))
  {
    var text := GenderText(g);
    FirstDashAt(text, b);
    var s := text + "-" + b;
    assert s[..|text|] == text;
    assert s[|text| + 1..] == b;
  }

  /** A key determines its record: parsing a key gives back the record it was made from. */
  lemma KeyRoundTrip(r: NameRecord)
    ensures ParseKey(Key(r)) == Some(r)
  {
    var n: nat := if r.year < 0 then -r.year else r.year;
    var tail := GenderText(r.gender) + "-" + r.name;
    var rest := NatText(n) + "-" + tail;
    var s := Key(r);
    if r.year < 0 {
      assert s == "-" + rest;
      assert SplitSign(s) == (true, rest);
    } else {
      assert s == rest;
      assert IsDigit(NatText(n)[0]);
      assert SplitSign(s) == (false, rest);
    }
    SplitNumberOf(n, tail);
    SplitGenderOf(r.gender, r.name);
  }

  /** Two records have the same key exactly when they are the same record. */
  lemma KeyInjective(a: NameRecord, b: NameRecord)
    ensures Key(a) == Key(b) <==> a == b
  {
    KeyRoundTrip(a);
    KeyRoundTrip(b);
  }

  /** No two positions of the dataset share a key. */
  predicate UniqueKeys(s: seq<NameRecord>) {
    forall i, j :: 0 <= i < j < |s| ==> Key(s[i]) != Key(s[j])
  }

  /** A sequence whose positions hold pairwise different values holds each value at most once. */
  lemma {:induction false} DistinctOnce<T>(s: seq<T>)
    requires forall i, j :: 0 <= i < j < |s| ==> s[i] != s[j]
    ensures forall x :: multiset(s)[x] <= 1
  {
    if s != [] {
      var p := s[..|s| - 1];
      var last := s[|s| - 1];
      assert s == p + [last];
      assert forall i, j :: 0 <= i < j < |p| ==> p[i] != p[j] by {
        forall i, j | 0 <= i < j < |p| ensures p[i] != p[j] {
          assert p[i] == s[i] && p[j] == s[j];
        }
      }
      DistinctOnce(p);
      assert last !in p by {
        forall i | 0 <= i < |p| ensures p[i] != last {
          assert p[i] == s[i];
        }
      }
      forall x ensures multiset(s)[x] <= 1 {
        assert multiset(s)[x] == multiset(p)[x] + multiset([last])[x];
      }
    }
  }

  /** The dataset's keys are unique exactly when its positions hold pairwise different records. */
  lemma UniqueKeysIffDistinct(s: seq<NameRecord>)
    ensures UniqueKeys(s) <==> forall i, j :: 0 <= i < j < |s| ==> s[i] != s[j]
  {
    forall i, j | 0 <= i < j < |s| ensures Key(s[i]) == Key(s[j]) <==> s[i] == s[j] {
      KeyInjective(s[i], s[j]);
    }
  }

  /** A dataset with unique keys holds each record at most once. */
  lemma UniqueKeysOnce(s: seq<NameRecord>)
    requires UniqueKeys(s)
    ensures forall r :: multiset(s)[r] <= 1
  {
    DistinctOnce(s);
  }
}
