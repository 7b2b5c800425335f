/** The log records and the window filter `filterLogsByDateRange` of
    catnostk.go, with the base-10 int64 parse (`strconv.ParseInt(s, 10, 64)`)
    it applies to each record's date. */
module Records {
  import opened Results

  /** `CONTENTS`: the three string fields of one record. */
  datatype Contents = Contents(date: string, pubKey: string, content: string)

  /** `NOSTRLOG`: a record and the key it was stored under. */
  datatype NostrLog = NostrLog(id: string, contents: Contents)

  const MinInt64: int := -0x8000_0000_0000_0000
  const MaxInt64: int := 0x7FFF_FFFF_FFFF_FFFF

  /** A decimal digit among the characters of a record field; the date
      spec has its own byte-level digits in `Bytes`, since it is raw bytes
      while record fields are decoded text. */
  predicate IsDecimalDigit(c: char) {
    '0' <= c <= '9'
  }

  predicate AllDecimal(s: string) {
    forall i :: 0 <= i < |s| ==> IsDecimalDigit(s[i])
  }

  /** The value of a decimal digit string, most significant digit first. */
  function DecimalValue(s: string): nat
    requires AllDecimal(s)
  {
    if |s| == 0 then 0
    else DecimalValue(s[..|s| - 1]) * 10 + (s[|s| - 1] as int - '0' as int)
  }

  /** `strconv.ParseInt(s, 10, 64)`: an optional '+' or '-', then one or
      more decimal digits (leading zeros allowed, no underscores in base
      10), whose value must lie in the int64 range. */
  function ParseInt64(s: string): (r: Option<int>)
    ensures r.Some? ==> MinInt64 <= r.value <= MaxInt64
    ensures r.Some? ==> |s| > 0 && (IsDecimalDigit(s[0]) || s[0] == '+' || s[0] == '-')
  {
    var signed := |s| > 0 && (s[0] == '+' || s[0] == '-');
    var digits := if signed then s[1..] else s;
    if |digits| == 0 || !AllDecimal(digits) then None
    else
      var n: int := DecimalValue(digits);
      var v := if signed && s[0] == '-' then -n else n;
      if MinInt64 <= v <= MaxInt64 then Some(v) else None
  }

  /** The shortest decimal text of a natural number. */
  function NatText(n: nat): (s: string)
    ensures |s| > 0 && AllDecimal(s)
  {
    var digit := [(n % 10 + '0' as int) as char];
    if n < 10 then digit else NatText(n / 10) + digit
  }

  /** `strconv.FormatInt(v, 10)`: the text the source's producers write
      into a record's date field. */
  function FormatInt(v: int): (s: string)
    ensures |s| > 0
  {
    if v < 0 then "-" + NatText(-v) else NatText(v)
  }

  lemma {:induction false} ValueOfNatText(n: nat)
    ensures DecimalValue(NatText(n)) == n
  {
    var s := NatText(n);
    if n >= 10 {
      assert s[..|s| - 1] == NatText(n / 10);
      ValueOfNatText(n / 10);
    }
  }

  /** Parsing inverts formatting on the whole int64 range. */
  lemma ParseFormatInt(v: int)
    requires MinInt64 <= v <= MaxInt64
    ensures ParseInt64(FormatInt(v)) == Some(v)
  {
    var s := FormatInt(v);
    if v < 0 {
      assert s[0] == '-' && s[1..] == NatText(-v);
      ValueOfNatText(-v);
    } else {
      assert IsDecimalDigit(s[0]);
      ValueOfNatText(v);
    }
  }

  /** `k` zero digits. */
  function Zeros(k: nat): (z: string)
    ensures |z| == k && AllDecimal(z)
  {
    if k == 0 then "" else "0" + Zeros(k - 1)
  }

  /** `s` spells `v` as `strconv.ParseInt` reads it: an optional sign, `k`
      leading zeros, then the shortest digits of `|v|`. A '+' or no sign
      needs v >= 0; a '-' needs v <= 0, so "-0" spells 0. */
  predicate SignedText(s: string, k: nat, v: int) {
    || (v >= 0 && s == Zeros(k) + NatText(v))
    || (v >= 0 && s == "+" + (Zeros(k) + NatText(v)))
    || (v <= 0 && s == "-" + (Zeros(k) + NatText(-v)))
  }

  lemma {:induction false} ZerosValue(k: nat)
    ensures DecimalValue(Zeros(k)) == 0
  {
    if k > 0 {
      var z := Zeros(k);
      assert z[..k - 1] == Zeros(k - 1) by {
        if k > 1 {
          ZerosTail(k - 1);
        }
      }
      ZerosValue(k - 1);
    }
  }

  lemma {:induction false} ZerosTail(k: nat)
    requires k > 0
    ensures Zeros(k + 1) == Zeros(k) + "0"
  {
    if k > 1 {
      ZerosTail(k - 1);
    }
  }

  /** Leading zeros do not change a digit string's value. */
  lemma {:induction false} LeadingZerosValue(k: nat, t: string)
    requires AllDecimal(t)
    ensures AllDecimal(Zeros(k) + t) && DecimalValue(Zeros(k) + t) == DecimalValue(t)
    decreases |t|
  {
    var u := Zeros(k) + t;
    assert AllDecimal(u) by {
      forall i | 0 <= i < |u|
        ensures IsDecimalDigit(u[i])
      {
        if i >= k {
          assert u[i] == t[i - k];
        }
      }
    }
    if |t| == 0 {
      assert u == Zeros(k);
      ZerosValue(k);
    } else {
      assert u[..|u| - 1] == Zeros(k) + t[..|t| - 1];
      LeadingZerosValue(k, t[..|t| - 1]);
    }
  }

  lemma {:induction false} LeadingDigitPositive(d: string)
    requires |d| > 0 && AllDecimal(d) && d[0] != '0'
    ensures DecimalValue(d) > 0
    decreases |d|
  {
    if |d| > 1 {
      LeadingDigitPositive(d[..|d| - 1]);
    }
  }

  /** A digit string without a leading zero is the shortest text of its
      value. */
  lemma {:induction false} CanonicalDigits(d: string)
    requires |d| > 0 && AllDecimal(d) && d[0] != '0'
    ensures NatText(DecimalValue(d)) == d
    decreases |d|
  {
    var n := DecimalValue(d);
    var c := d[|d| - 1] as int - '0' as int;
    if |d| > 1 {
      var p := d[..|d| - 1];
      CanonicalDigits(p);
      LeadingDigitPositive(p);
      assert n == DecimalValue(p) * 10 + c;
      assert n / 10 == DecimalValue(p) && n % 10 == c;
      assert d == p + [d[|d| - 1]];
    }
  }

  /** Every digit string is some zeros followed by the shortest text of
      its value. */
  lemma {:induction false} StripZeros(d: string) returns (k: nat)
    requires |d| > 0 && AllDecimal(d)
    ensures d == Zeros(k) + NatText(DecimalValue(d))
    decreases |d|
  {
    if d[0] != '0' {
      CanonicalDigits(d);
      k := 0;
    } else if |d| == 1 {
      k := 0;
    } else {
      var k' := StripZeros(d[1..]);
      LeadingZerosValue(1, d[1..]);
      assert d == Zeros(1) + d[1..];
      k := k' + 1;
    }
  }

  /** Every text `ParseInt64` accepts is a signed spelling of its value. */
  lemma ParsedIsSignedText(s: string) returns (k: nat)
    requires ParseInt64(s).Some?
    ensures SignedText(s, k, ParseInt64(s).value)
  {
    var v := ParseInt64(s).value;
    if s[0] == '+' || s[0] == '-' {
      var digits := s[1..];
      k := StripZeros(digits);
      assert s == [s[0]] + digits;
      if s[0] == '-' {
        var n: int := DecimalValue(digits);
        assert v == -n;
        assert s == "-" + (Zeros(k) + NatText(-v));
      } else {
        assert s == "+" + (Zeros(k) + NatText(v));
      }
    } else {
      k := StripZeros(s);
    }
  }

  /** A digit string, bare or behind a sign, parses to its value. */
  lemma DigitsParse(t: string, n: nat)
    requires |t| > 0 && AllDecimal(t) && DecimalValue(t) == n
    ensures n <= MaxInt64 ==> ParseInt64(t) == Some(n)
    ensures n <= MaxInt64 ==> ParseInt64("+" + t) == Some(n)
    ensures n <= -MinInt64 ==> ParseInt64("-" + t) == Some(-(n as int))
  {
    assert ("+" + t)[1..] == t;
    assert ("-" + t)[1..] == t;
  }

  /** Zeros before the digits of `a` keep the value `a`. */
  lemma ZeroPaddedValue(k: nat, a: nat)
    ensures var t := Zeros(k) + NatText(a);
      |t| > 0 && AllDecimal(t) && DecimalValue(t) == a
  {
    LeadingZerosValue(k, NatText(a));
    ValueOfNatText(a);
  }

  /** Every signed spelling of an int64 value parses to that value. */
  lemma SignedTextParses(s: string, k: nat, v: int)
    requires MinInt64 <= v <= MaxInt64 && SignedText(s, k, v)
    ensures ParseInt64(s) == Some(v)
  {
    var a: nat := if v >= 0 then v else -v;
    ZeroPaddedValue(k, a);
    DigitsParse(Zeros(k) + NatText(a), a);
  }

  /** The texts `strconv.ParseInt(s, 10, 64)` accepts, both ways: it
      yields `v` exactly when `v` is in the int64 range and `s` is an
      optional sign, any number of '0's, and the digits of `|v|` — so
      "+07" and "007" read as 7 and "-0" as 0, while "1x", "+" and ""
      are rejected. */
  lemma ParseInt64Texts(s: string, v: int)
    ensures ParseInt64(s) == Some(v) <==> MinInt64 <= v <= MaxInt64 && exists k: nat :: SignedText(s, k, v)
  {
    if ParseInt64(s) == Some(v) {
      var k := ParsedIsSignedText(s);
    }
    if MinInt64 <= v <= MaxInt64 && exists k: nat :: SignedText(s, k, v) {
      var k: nat :| SignedText(s, k, v);
      SignedTextParses(s, k, v);
    }
  }

  /** The filter's test for one record: its date parses, and the time lies
      in the inclusive window. */
  predicate InWindow(e: NostrLog, start: int, end: int) {
    var t := ParseInt64(e.contents.date);
    t.Some? && start <= t.value <= end
  }

  /** `a` is `b` with some elements left out and the rest in order. */
  predicate IsSubsequence<T(==)>(a: seq<T>, b: seq<T>)
    decreases |b|
  {
    if |a| == 0 then true
    else if |b| == 0 then false
    else if a[|a| - 1] == b[|b| - 1] then IsSubsequence(a[..|a| - 1], b[..|b| - 1])
    else IsSubsequence(a, b[..|b| - 1])
  }

  /** `filterLogsByDateRange`: one pass over the records, appending each
      whose date parses to a time inside [start, end]. Records whose date
      does not parse are skipped without an error. */
  function FilterLogsByDateRange(logs: seq<NostrLog>, start: int, end: int): (r: seq<NostrLog>)
    ensures IsSubsequence(r, logs)
    ensures forall i :: 0 <= i < |r| ==> InWindow(r[i], start, end)
    ensures forall e :: multiset(r)[e] == if InWindow(e, start, end) then multiset(logs)[e] else 0
    ensures start > end ==> r == []
  {
    if |logs| == 0 then []
    else
      var init, last := logs[..|logs| - 1], logs[|logs| - 1];
      assert logs == init + [last];
      var kept := FilterLogsByDateRange(init, start, end);
      if InWindow(last, start, end) then kept + [last] else kept
  }
}
