/** The java.lang String and Long operations the rest of the model relies on,
    over Dafny strings. Only ASCII letters are case-mapped and only ASCII
    digits are decimal digits. */
module JavaText {
  import opened Common

  // ---------------------------------------------------------------------
  // long arithmetic
  // ---------------------------------------------------------------------

  const LongMin: int := -0x8000_0000_0000_0000
  const LongMax: int := 0x7FFF_FFFF_FFFF_FFFF
  const LongModulus: int := 0x1_0000_0000_0000_0000

  predicate IsLong(x: int) {
    LongMin <= x <= LongMax
  }

  /** The value a Java `long` expression holds when its exact value is x:
      two's-complement wrap-around modulo 2^64. */
  function Wrap64(x: int): (r: int)
    ensures IsLong(r)
    ensures (x - r) % LongModulus == 0
    ensures IsLong(x) ==> r == x
  {
    (x - LongMin) % LongModulus + LongMin
  }

  // ---------------------------------------------------------------------
  // String.trim and String.toUpperCase
  // ---------------------------------------------------------------------

  /** trim() strips every character at or below U+0020. */
  predicate IsTrimmable(c: char) {
    c <= ' '
  }

  predicate AllTrimmable(s: string) {
    forall i | 0 <= i < |s| :: IsTrimmable(s[i])
  }

  function TrimStart(s: string): (r: string)
    ensures |r| <= |s| && r == s[|s| - |r|..]
    ensures r != [] ==> !IsTrimmable(r[0])
    ensures AllTrimmable(s[..|s| - |r|])
    decreases |s|
  {
    if s != [] && IsTrimmable(s[0]) then TrimStart(s[1..]) else s
  }

  function TrimEnd(s: string): (r: string)
    ensures |r| <= |s| && r == s[..|r|]
    ensures r != [] ==> !IsTrimmable(r[|r| - 1])
    ensures AllTrimmable(s[|r|..])
    decreases |s|
  {
    if s != [] && IsTrimmable(s[|s| - 1]) then TrimEnd(s[..|s| - 1]) else s
  }

  /** t occurs in s at index i. */
  predicate OccursAt(s: string, t: string, i: nat) {
    i + |t| <= |s| && s[i..i + |t|] == t
  }

  /** String.trim(): s without its leading and trailing characters at or
      below U+0020; what is left starts and ends with a visible character. */
  function Trim(s: string): (r: string)
    ensures |r| <= |s|
    ensures r != [] ==> !IsTrimmable(r[0]) && !IsTrimmable(r[|r| - 1])
  {
    TrimEnd(TrimStart(s))
  }

  /** Trim(s) sits in s with only trimmable padding on either side. */
  lemma TrimIsPadding(s: string)
    ensures exists i: nat :: OccursAt(s, Trim(s), i) && AllTrimmable(s[..i]) && AllTrimmable(s[i + |Trim(s)|..])
  {
    var t := TrimStart(s);
    var r := Trim(s);
    var i := |s| - |t|;
    assert r == TrimEnd(t) && r == t[..|r|];
    assert t[|r|..] == s[i + |r|..];
    assert OccursAt(s, r, i);
  }

  function UpperChar(c: char): char {
    if 'a' <= c <= 'z' then (c as int - 32) as char else c
  }

  /** String.toUpperCase() on the ASCII letters. */
  function ToUpperCase(s: string): (r: string)
    ensures |r| == |s|
    ensures forall i | 0 <= i < |s| :: r[i] == UpperChar(s[i])
  {
    seq(|s|, i requires 0 <= i < |s| => UpperChar(s[i]))
  }

  // ---------------------------------------------------------------------
  // String.endsWith, String.contains, String.replace(target, "")
  // ---------------------------------------------------------------------

  predicate StartsWith(s: string, prefix: string) {
    |prefix| <= |s| && s[..|prefix|] == prefix
  }

  predicate EndsWith(s: string, suffix: string) {
    |suffix| <= |s| && s[|s| - |suffix|..] == suffix
  }

  /** String.contains(t): t occurs somewhere in s. */
  predicate Contains(s: string, t: string)
    ensures Contains(s, t) ==> |t| <= |s|
    decreases |s|
  {
    StartsWith(s, t) || (s != [] && Contains(s[1..], t))
  }

  /** Contains holds exactly when t occurs at some index of s. */
  lemma {:induction false} ContainsOccurs(s: string, t: string)
    ensures Contains(s, t) <==> exists i: nat :: OccursAt(s, t, i)
    decreases |s|
  {
    OccursAfterFirst(s, t);
    if s != [] {
      ContainsOccurs(s[1..], t);
    }
  }

  /** The occurrences of t in s are the one at 0, if any, and those of
      s[1..] shifted by one. */
  lemma OccursAfterFirst(s: string, t: string)
    ensures OccursAt(s, t, 0) <==> StartsWith(s, t)
    ensures s != [] ==> ((exists i: nat :: OccursAt(s, t, i)) <==> StartsWith(s, t) || exists j: nat :: OccursAt(s[1..], t, j))
  {
    if s != [] {
      forall j: nat ensures OccursAt(s[1..], t, j) <==> OccursAt(s, t, j + 1) {
        if j + 1 + |t| <= |s| {
          assert s[1..][j..j + |t|] == s[j + 1..j + 1 + |t|];
        }
      }
      if i: nat :| OccursAt(s, t, i) {
        if i > 0 {
          assert OccursAt(s[1..], t, i - 1);
        }
      }
    }
  }

  lemma {:induction false} ContainsSuffix(s: string, j: nat, t: string)
    requires j <= |s| && Contains(s[j..], t)
    ensures Contains(s, t)
    decreases j
  {
    if j > 0 {
      assert s[1..][j - 1..] == s[j..];
      ContainsSuffix(s[1..], j - 1, t);
    }
  }

  /** Every character of an occurrence of t is a character of s. */
  lemma {:induction false} ContainsCharacters(s: string, t: string)
    requires Contains(s, t)
    ensures forall c | c in t :: c in s
    decreases |s|
  {
    if !StartsWith(s, t) {
      ContainsCharacters(s[1..], t);
    } else {
      assert s[..|t|] == t;
    }
  }

  /** Where t occurs in s. */
  lemma {:induction false} ContainsAt(s: string, t: string) returns (i: nat)
    requires Contains(s, t)
    ensures i + |t| <= |s| && s[i..i + |t|] == t
    decreases |s|
  {
    if StartsWith(s, t) {
      i := 0;
    } else {
      var j := ContainsAt(s[1..], t);
      assert s[1..][j..j + |t|] == s[j + 1..j + 1 + |t|];
      i := j + 1;
    }
  }

  /** Text with no two '.' side by side does not contain "..". */
  lemma {:induction false} NoDoubleDot(s: string)
    requires forall i | 0 <= i < |s| - 1 :: !(s[i] == '.' && s[i + 1] == '.')
    ensures !Contains(s, "..")
    decreases |s|
  {
    if |s| >= 2 {
      assert s[..2][0] == s[0] && s[..2][1] == s[1];
      var t := s[1..];
      assert forall i | 0 <= i < |t| :: t[i] == s[i + 1];
      NoDoubleDot(t);
    } else if |s| == 1 {
      assert !StartsWith(s[1..], "..");
    }
  }

  /** A suffix of b is a suffix of a + b. */
  lemma EndsWithAppend(a: string, b: string, t: string)
    requires EndsWith(b, t)
    ensures EndsWith(a + b, t)
  {
    assert (a + b)[|a + b| - |t|..] == b[|b| - |t|..];
  }

  /** t occurs in s when it occurs right after a. */
  lemma ContainsAfter(a: string, t: string, b: string)
    ensures Contains(a + t + b, t)
  {
    var s := a + t + b;
    assert s[|a|..][..|t|] == t;
    ContainsSuffix(s, |a|, t);
  }

  /** s.replace(target, ""): every occurrence of target, found left to right
      without overlap, removed. */
  function RemoveAll(s: string, target: string): (r: string)
    requires target != []
    ensures |r| <= |s|
    ensures forall c | c in r :: c in s
    ensures forall c | c in s && c !in target :: c in r
    ensures !Contains(s, target) ==> r == s
    ensures Contains(s, target) ==> |r| <= |s| - |target|
    decreases |s|
  {
    if |s| < |target| then s
    else if s[..|target|] == target then RemoveAll(s[|target|..], target)
    else [s[0]] + RemoveAll(s[1..], target)
  }

  /** An occurrence of target after text that cannot start one is removed,
      and the text before it kept. */
  lemma RemoveAllOccurrence(a: string, target: string, b: string)
    requires target != [] && target[0] !in a
    ensures RemoveAll(a + target + b, target) == a + RemoveAll(b, target)
  {
    assert a + target + b == a + (target + b);
    RemoveAllSkips(a, target + b, target);
    var x := target + b;
    assert x[..|target|] == target && x[|target|..] == b;
  }

  /** Text before the first possible start of target is kept as it is. */
  lemma {:induction false} RemoveAllSkips(d: string, x: string, target: string)
    requires target != [] && target[0] !in d
    ensures RemoveAll(d + x, target) == d + RemoveAll(x, target)
    decreases |d|
  {
    if d != [] {
      var s := d + x;
      if |s| < |target| {
        RemoveAllShort(s, target);
        RemoveAllShort(x, target);
        return;
      }
      assert s[0] == d[0];
      RemoveAllKeepsFirst(s, target);
      assert s[1..] == d[1..] + x;
      RemoveAllSkips(d[1..], x, target);
      ConsAppend(d, RemoveAll(x, target));
    } else {
      assert d + x == x;
    }
  }

  lemma RemoveAllShort(s: string, target: string)
    requires target != [] && |s| < |target|
    ensures RemoveAll(s, target) == s
  {
  }

  lemma RemoveAllKeepsFirst(s: string, target: string)
    requires target != [] && |target| <= |s| && s[0] != target[0]
    ensures RemoveAll(s, target) == [s[0]] + RemoveAll(s[1..], target)
  {
    assert s[..|target|][0] == s[0];
  }

  lemma ConsAppend(d: string, y: string)
    requires d != []
    ensures [d[0]] + (d[1..] + y) == d + y
  {
    assert d == [d[0]] + d[1..];
  }

  /** n copies of t, one after the other. */
  function Repeat(t: string, n: nat): (r: string)
    ensures |r| == n * |t|
  {
    if n == 0 then [] else t + Repeat(t, n - 1)
  }

  // ---------------------------------------------------------------------
  // Long.parseLong and Long.toString
  // ---------------------------------------------------------------------

  predicate IsDigit(c: char) {
    '0' <= c <= '9'
  }

  predicate AllDigits(s: string) {
    forall i | 0 <= i < |s| :: IsDigit(s[i])
  }

  /** The value of a string of decimal digits, most significant first. */
  function DigitsValue(ds: string): nat
    requires AllDigits(ds)
  {
    if ds == [] then 0
    else 10 * DigitsValue(ds[..|ds| - 1]) + (ds[|ds| - 1] as int - '0' as int)
  }

  /** The digits Long.parseLong reads: what follows an optional leading sign. */
  function Unsigned(s: string): string {
    if s != [] && (s[0] == '-' || s[0] == '+') then s[1..] else s
  }

  /** The syntax Long.parseLong accepts: an optional sign, then one or more
      decimal digits. */
  predicate WellFormedLong(s: string) {
    Unsigned(s) != [] && AllDigits(Unsigned(s))
  }

  /** The signed value of a well-formed Long.parseLong argument. */
  function SignedValue(s: string): int
    requires WellFormedLong(s)
  {
    var v: int := DigitsValue(Unsigned(s));
    if s[0] == '-' then -v else v
  }

  /** Long.parseLong(s): an optional '+' or '-', then at least one decimal
      digit, with a value in the range of long. Anything else throws
      NumberFormatException, modelled as None. */
  function ParseLong(s: string): (r: Option<int>)
    ensures r.Some? ==> IsLong(r.value)
    ensures r.Some? <==> WellFormedLong(s) && IsLong(SignedValue(s))
    ensures r.Some? ==> r.value == SignedValue(s)
  {
    var digits := Unsigned(s);
    if digits == [] || !AllDigits(digits) then None
    else if IsLong(SignedValue(s)) then Some(SignedValue(s))
    else None
  }

  /** parseLong throws on text holding a character that is neither a digit
      nor a sign. */
  lemma ParseLongRejects(s: string, c: char)
    requires c in s && !IsDigit(c) && c != '-' && c != '+'
    ensures ParseLong(s) == None
  {
    var i :| 0 <= i < |s| && s[i] == c;
    if s[0] == '-' || s[0] == '+' {
      assert Unsigned(s)[i - 1] == c;
    } else {
      assert Unsigned(s)[i] == c;
    }
  }

  /** The characters of well-formed long text: signs and digits only, and
      a digit at the end. */
  lemma WellFormedLongCharacters(s: string)
    requires WellFormedLong(s)
    ensures s != [] && IsDigit(s[|s| - 1])
    ensures forall i | 0 <= i < |s| :: s[i] == '-' || s[i] == '+' || IsDigit(s[i])
  {
    if s[0] == '-' || s[0] == '+' {
      assert forall i | 1 <= i < |s| :: s[i] == Unsigned(s)[i - 1];
    }
  }

  lemma {:induction false} ZerosValue(z: string)
    requires forall i | 0 <= i < |z| :: z[i] == '0'
    ensures AllDigits(z) && DigitsValue(z) == 0
    decreases |z|
  {
    if z != [] {
      ZerosValue(z[..|z| - 1]);
    }
  }

  lemma {:induction false} DigitsValueLeadingZeros(z: string, ds: string)
    requires forall i | 0 <= i < |z| :: z[i] == '0'
    requires AllDigits(ds)
    ensures AllDigits(z + ds) && DigitsValue(z + ds) == DigitsValue(ds)
    decreases |ds|
  {
    if ds == [] {
      assert z + ds == z;
      ZerosValue(z);
    } else {
      DigitsValueLeadingZeros(z, ds[..|ds| - 1]);
      assert (z + ds)[..|z + ds| - 1] == z + ds[..|ds| - 1];
    }
  }

  /** Leading zeros and a leading '+' do not change what parseLong reads:
      "+0500", "0500" and "500" are the same long, "-0500" and "-500" too. */
  lemma ParseLongIgnoresZerosAndPlus(z: string, ds: string)
    requires forall i | 0 <= i < |z| :: z[i] == '0'
    requires ds != [] && AllDigits(ds)
    ensures ParseLong(z + ds) == ParseLong(ds)
    ensures ParseLong("+" + z + ds) == ParseLong(ds)
    ensures ParseLong("-" + z + ds) == ParseLong("-" + ds)
  {
    DigitsValueLeadingZeros(z, ds);
    SameDigitsReadAlike(z + ds, ds);
    SeqAssoc("+", z, ds);
    SeqAssoc("-", z, ds);
  }

  lemma SeqAssoc(a: string, b: string, c: string)
    ensures a + b + c == a + (b + c)
  {
  }

  /** Two runs of digits of one value read alike, with or without a sign. */
  lemma SameDigitsReadAlike(a: string, b: string)
    requires a != [] && b != [] && AllDigits(a) && AllDigits(b) && DigitsValue(a) == DigitsValue(b)
    ensures ParseLong(a) == ParseLong(b)
    ensures ParseLong("+" + a) == ParseLong(b)
    ensures ParseLong("-" + a) == ParseLong("-" + b)
  {
    assert IsDigit(a[0]) && IsDigit(b[0]);
    SignedReadings(a);
    SignedReadings(b);
    SameSignedValue(a, b);
    SameSignedValue("+" + a, b);
    SameSignedValue("-" + a, "-" + b);
  }

  /** A run of digits, alone or behind '+' or '-', is well-formed long
      text with the value the sign gives it. */
  lemma SignedReadings(ds: string)
    requires ds != [] && AllDigits(ds) && ds[0] != '-' && ds[0] != '+'
    ensures WellFormedLong(ds) && SignedValue(ds) == DigitsValue(ds)
    ensures WellFormedLong("+" + ds) && SignedValue("+" + ds) == DigitsValue(ds)
    ensures WellFormedLong("-" + ds) && SignedValue("-" + ds) == -(DigitsValue(ds) as int)
  {
    assert ("+" + ds)[0] == '+' && ("+" + ds)[1..] == ds;
    assert ("-" + ds)[0] == '-' && ("-" + ds)[1..] == ds;
  }

  /** parseLong gives the same answer on two well-formed texts of one value. */
  lemma SameSignedValue(a: string, b: string)
    requires WellFormedLong(a) && WellFormedLong(b) && SignedValue(a) == SignedValue(b)
    ensures ParseLong(a) == ParseLong(b)
  {
  }

  function DigitChar(d: nat): (c: char)
    requires d < 10
    ensures IsDigit(c) && c as int - '0' as int == d
  {
    ('0' as int + d) as char
  }

  /** The decimal digits of n, without leading zeros. */
  function NatToDecimal(n: nat): string
    decreases n
  {
    if n < 10 then [DigitChar(n)] else NatToDecimal(n / 10) + [DigitChar(n % 10)]
  }

  /** Long.toString(n). */
  function LongToString(n: int): string {
    if n < 0 then "-" + NatToDecimal(-n) else NatToDecimal(n)
  }

  lemma {:induction false} NatToDecimalDigits(n: nat)
    ensures NatToDecimal(n) != []
    ensures AllDigits(NatToDecimal(n))
    ensures DigitsValue(NatToDecimal(n)) == n
    decreases n
  {
    if n >= 10 {
      NatToDecimalDigits(n / 10);
      var ds := NatToDecimal(n);
      assert ds[..|ds| - 1] == NatToDecimal(n / 10);
    }
  }

  /** parseLong reads back what toString writes, for every long. */
  lemma ParseLongToString(n: int)
    requires IsLong(n)
    ensures ParseLong(LongToString(n)) == Some(n)
  {
    var s := LongToString(n);
    var m: nat := if n < 0 then -n else n;
    NatToDecimalDigits(m);
    assert Unsigned(s) == NatToDecimal(m);
    assert SignedValue(s) == n;
  }

  /** Long.toString never writes a letter or a character at or below U+0020:
      only '-' and digits. */
  lemma LongToStringCharacters(n: int)
    ensures LongToString(n) != []
    ensures forall i | 0 <= i < |LongToString(n)| :: LongToString(n)[i] == '-' || IsDigit(LongToString(n)[i])
    ensures IsDigit(LongToString(n)[|LongToString(n)| - 1])
  {
    NatToDecimalDigits(if n < 0 then -n else n);
  }

  // ---------------------------------------------------------------------
  // String.join and String.indexOf
  // ---------------------------------------------------------------------

  /** String.join(sep, parts). */
  function Join(parts: seq<string>, sep: string): string
    decreases |parts|
  {
    if parts == [] then []
    else if |parts| == 1 then parts[0]
    else parts[0] + sep + Join(parts[1..], sep)
  }

  /** The joined text starts with the first part. */
  lemma JoinStartsWithFirst(parts: seq<string>, sep: string)
    ensures parts != [] ==> |parts[0]| <= |Join(parts, sep)| && Join(parts, sep)[..|parts[0]|] == parts[0]
  {
  }

  /** A character in neither the separator nor any part is not in the
      joined text. */
  lemma {:induction false} JoinWithout(parts: seq<string>, sep: string, c: char)
    requires c !in sep && forall e | e in parts :: c !in e
    ensures c !in Join(parts, sep)
    decreases |parts|
  {
    if |parts| > 1 {
      JoinWithout(parts[1..], sep, c);
    }
  }

  lemma {:induction false} JoinAppend(parts: seq<string>, sep: string, last: string)
    requires parts != []
    ensures Join(parts + [last], sep) == Join(parts, sep) + sep + last
    decreases |parts|
  {
    if |parts| > 1 {
      assert (parts + [last])[1..] == parts[1..] + [last];
      JoinAppend(parts[1..], sep, last);
    } else {
      assert (parts + [last])[1..] == [last];
    }
  }

  /** s.indexOf(c), or |s| when c does not occur. */
  function IndexOfOrEnd(s: string, c: char): (k: nat)
    ensures k <= |s|
    ensures c !in s[..k]
    ensures k < |s| ==> s[k] == c
    decreases |s|
  {
    if s == [] || s[0] == c then 0 else 1 + IndexOfOrEnd(s[1..], c)
  }
}
