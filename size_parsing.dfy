/** FileController.parseSizeToBytes: the configured upload ceiling, such as
    "500MB", turned into a number of bytes. */
module SizeParsing {
  import opened Common
  import opened JavaText

  /** The three suffixes the parser knows, each a power of 1024. */
  datatype Unit = KB | MB | GB {
    function Suffix(): string {
      match this
      case KB => "KB"
      case MB => "MB"
      case GB => "GB"
    }

    function Scale(): int {
      match this
      case KB => 1024
      case MB => 1024 * 1024
      case GB => 1024 * 1024 * 1024
    }
  }

  /** The parsed number times the scale, in long arithmetic; a number that
      does not parse gives 0 (the NumberFormatException handler). */
  function Scaled(n: Option<int>, scale: int): int {
    match n
    case None => 0
    case Some(v) => Wrap64(v * scale)
  }

  /** The text the suffix tests see: trimmed, then upper-cased. */
  function Canonical(raw: string): string {
    ToUpperCase(Trim(raw))
  }

  /** The suffix tests and parses on canonical text: MB, KB and GB in that
      order, every occurrence of the matched suffix removed and the rest
      parsed as a long; without a suffix the whole text is parsed. */
  function SizeOf(s: string): (r: int)
    ensures IsLong(r)
    ensures forall u: Unit | EndsWith(s, u.Suffix()) :: r == Scaled(ParseLong(RemoveAll(s, u.Suffix())), u.Scale())
    ensures (forall u: Unit :: !EndsWith(s, u.Suffix())) ==> r == Scaled(ParseLong(s), 1)
  {
    SuffixesExclusive(s);
    if EndsWith(s, MB.Suffix()) then Scaled(ParseLong(RemoveAll(s, MB.Suffix())), MB.Scale())
    else if EndsWith(s, KB.Suffix()) then Scaled(ParseLong(RemoveAll(s, KB.Suffix())), KB.Scale())
    else if EndsWith(s, GB.Suffix()) then Scaled(ParseLong(RemoveAll(s, GB.Suffix())), GB.Scale())
    else Scaled(ParseLong(s), 1)
  }

  /** Text ends with at most one of the three suffixes: they end in the same
      letter but differ in the one before it. So the order of the tests
      does not matter. */
  lemma SuffixesExclusive(s: string)
    ensures forall u: Unit, v: Unit | EndsWith(s, u.Suffix()) && EndsWith(s, v.Suffix()) :: u == v
  {
    forall u: Unit, v: Unit | EndsWith(s, u.Suffix()) && EndsWith(s, v.Suffix()) ensures u == v {
      assert u.Suffix()[0] == s[|s| - 2] == v.Suffix()[0];
    }
  }

  /** parseSizeToBytes: null gives 0, anything else is trimmed, upper-cased
      and read by SizeOf. */
  function ParseSizeToBytes(size: Option<string>): (r: int)
    ensures IsLong(r)
    ensures size.None? ==> r == 0
  {
    match size
    case None => 0
    case Some(raw) => SizeOf(Canonical(raw))
  }

  // ---------------------------------------------------------------------
  // trim and upper-case: the input is canonicalised before matching
  // ---------------------------------------------------------------------

  lemma {:induction false} TrimStartPadding(pre: string, s: string)
    requires AllTrimmable(pre)
    ensures TrimStart(pre + s) == TrimStart(s)
    decreases |pre|
  {
    if pre != [] {
      assert (pre + s)[0] == pre[0] && IsTrimmable(pre[0]);
      assert (pre + s)[1..] == pre[1..] + s;
      assert AllTrimmable(pre[1..]) by {
        forall i | 0 <= i < |pre| - 1 ensures IsTrimmable(pre[1..][i]) {
          assert pre[1..][i] == pre[i + 1];
        }
      }
      TrimStartPadding(pre[1..], s);
    } else {
      assert pre + s == s;
    }
  }

  lemma {:induction false} TrimEndPadding(s: string, post: string)
    requires AllTrimmable(post)
    ensures TrimEnd(s + post) == TrimEnd(s)
    decreases |post|
  {
    if post != [] {
      var p := post[..|post| - 1];
      assert (s + post)[|s + post| - 1] == post[|post| - 1] && IsTrimmable(post[|post| - 1]);
      assert (s + post)[..|s + post| - 1] == s + p;
      assert AllTrimmable(p) by {
        forall i | 0 <= i < |p| ensures IsTrimmable(p[i]) {
          assert p[i] == post[i];
        }
      }
      TrimEndPadding(s, p);
    } else {
      assert s + post == s;
    }
  }

  /** Trimming s followed by padding: the padding only matters when s is
      all padding itself. */
  lemma {:induction false} TrimStartThenPadding(s: string, post: string)
    requires AllTrimmable(post)
    ensures TrimStart(s + post) == TrimStart(s) + post || (TrimStart(s) == [] && AllTrimmable(TrimStart(s + post)))
    decreases |s|
  {
    if s != [] {
      if IsTrimmable(s[0]) {
        assert (s + post)[1..] == s[1..] + post;
        TrimStartThenPadding(s[1..], post);
      }
    } else {
      assert s + post == post;
    }
  }

  /** Padding of characters at or below U+0020 around a string is removed by
      trim(). */
  lemma TrimIgnoresPadding(pre: string, s: string, post: string)
    requires AllTrimmable(pre) && AllTrimmable(post)
    ensures Trim(pre + s + post) == Trim(s)
  {
    assert pre + s + post == pre + (s + post);
    TrimStartPadding(pre, s + post);
    TrimStartThenPadding(s, post);
    if TrimStart(s + post) == TrimStart(s) + post {
      TrimEndPadding(TrimStart(s), post);
    }
  }

  lemma {:induction false} TrimStartUpper(s: string)
    ensures TrimStart(ToUpperCase(s)) == ToUpperCase(TrimStart(s))
    decreases |s|
  {
    if s != [] {
      assert ToUpperCase(s)[1..] == ToUpperCase(s[1..]);
      TrimStartUpper(s[1..]);
    }
  }

  lemma {:induction false} TrimEndUpper(s: string)
    ensures TrimEnd(ToUpperCase(s)) == ToUpperCase(TrimEnd(s))
    decreases |s|
  {
    if s != [] {
      var u := ToUpperCase(s);
      var init := s[..|s| - 1];
      assert u[|s| - 1] == UpperChar(s[|s| - 1]);
      assert u[..|s| - 1] == ToUpperCase(init);
      if IsTrimmable(s[|s| - 1]) {
        assert TrimEnd(u) == TrimEnd(ToUpperCase(init));
        assert TrimEnd(s) == TrimEnd(init);
        TrimEndUpper(init);
      }
    }
  }

  /** Trimming and upper-casing commute, so the order the source applies
      them in does not matter. */
  lemma TrimUpperCommute(s: string)
    ensures ToUpperCase(Trim(s)) == Trim(ToUpperCase(s))
  {
    TrimStartUpper(s);
    TrimEndUpper(TrimStart(s));
  }

  /** Surrounding spaces, tabs and line breaks do not change the ceiling. */
  lemma ParseSizeIgnoresPadding(pre: string, raw: string, post: string)
    requires AllTrimmable(pre) && AllTrimmable(post)
    ensures ParseSizeToBytes(Some(pre + raw + post)) == ParseSizeToBytes(Some(raw))
  {
    TrimIgnoresPadding(pre, raw, post);
  }

  /** Two spellings that differ only in the case of letters give the same
      ceiling. */
  lemma ParseSizeIgnoresCase(a: string, b: string)
    requires ToUpperCase(a) == ToUpperCase(b)
    ensures ParseSizeToBytes(Some(a)) == ParseSizeToBytes(Some(b))
  {
    TrimUpperCommute(a);
    TrimUpperCommute(b);
  }

  /** " 500mb " is 500 MiB: padding and case do not matter. */
  lemma PaddedLowerCaseExample(s: string)
    requires s == " 500mb "
    ensures ParseSizeToBytes(Some(s)) == 500 * 1024 * 1024
  {
    var t := LongToString(500) + Repeat("MB", 1);
    assert Canonical(s) == t by {
      assert TrimStart(s) == s[1..];
      assert TrimEnd(s[1..]) == "500mb";
      var upper := ToUpperCase("500mb");
      assert upper[3] == 'M' && upper[4] == 'B';
      FiveHundredText();
    }
    ParseSizeSuffixedLong(500, MB, 1);
  }

  // ---------------------------------------------------------------------
  // suffixes and plain numbers
  // ---------------------------------------------------------------------

  lemma {:induction false} RepeatCharacters(t: string, k: nat)
    ensures forall i | 0 <= i < |Repeat(t, k)| :: Repeat(t, k)[i] in t
    decreases k
  {
    if k > 0 {
      RepeatCharacters(t, k - 1);
      forall i | 0 <= i < |Repeat(t, k)| ensures Repeat(t, k)[i] in t {
        if i >= |t| {
          assert Repeat(t, k)[i] == Repeat(t, k - 1)[i - |t|];
        }
      }
    }
  }

  lemma {:induction false} RepeatEndsWith(t: string, k: nat)
    requires k > 0
    ensures EndsWith(Repeat(t, k), t)
    decreases k
  {
    if k > 1 {
      RepeatEndsWith(t, k - 1);
      EndsWithAppend(t, Repeat(t, k - 1), t);
    } else {
      assert Repeat(t, k) == t;
    }
  }

  lemma {:induction false} RemoveAllRepeat(t: string, k: nat)
    requires t != []
    ensures RemoveAll(Repeat(t, k), t) == []
    decreases k
  {
    if k > 0 {
      var r := Repeat(t, k);
      assert r[..|t|] == t && r[|t|..] == Repeat(t, k - 1);
      RemoveAllRepeat(t, k - 1);
    }
  }

  /** Text that starts and ends with a visible character and has no
      lower-case ASCII letter is already canonical. */
  lemma CanonicalUnchanged(s: string)
    requires s != [] && !IsTrimmable(s[0]) && !IsTrimmable(s[|s| - 1])
    requires forall i | 0 <= i < |s| :: !('a' <= s[i] <= 'z')
    ensures Canonical(s) == s
  {
    assert TrimStart(s) == s;
    assert TrimEnd(s) == s;
  }

  /** The characters of a number followed by copies of a suffix. */
  lemma SuffixedCharacters(num: string, u: Unit, k: nat)
    requires WellFormedLong(num) && k > 0
    ensures var s := num + Repeat(u.Suffix(), k);
      && s != [] && !IsTrimmable(s[0]) && s[|s| - 1] == 'B'
      && (forall i | 0 <= i < |s| :: s[i] == '-' || s[i] == '+' || IsDigit(s[i]) || s[i] in u.Suffix())
      && (forall i | 0 <= i < |s| :: !('a' <= s[i] <= 'z'))
      && EndsWith(s, u.Suffix())
  {
    var tail := Repeat(u.Suffix(), k);
    var s := num + tail;
    WellFormedLongCharacters(num);
    RepeatCharacters(u.Suffix(), k);
    RepeatEndsWith(u.Suffix(), k);
    EndsWithAppend(num, tail, u.Suffix());
    forall i | 0 <= i < |s|
      ensures s[i] == '-' || s[i] == '+' || IsDigit(s[i]) || s[i] in u.Suffix()
      ensures !('a' <= s[i] <= 'z')
    {
      if i >= |num| {
        assert s[i] == tail[i - |num|];
        assert u.Suffix()[0] in "KMG" && u.Suffix()[1] == 'B';
      } else {
        assert s[i] == num[i];
      }
    }
    assert s[|s| - 1] == u.Suffix()[1];
    assert s[0] == num[0];
  }

  /** After the suffix test has picked u, removing every copy of it leaves
      the number. */
  lemma SuffixRemoved(num: string, u: Unit, k: nat)
    requires WellFormedLong(num) && k > 0
    ensures RemoveAll(num + Repeat(u.Suffix(), k), u.Suffix()) == num
  {
    WellFormedLongCharacters(num);
    RemoveAllSkips(num, Repeat(u.Suffix(), k), u.Suffix());
    RemoveAllRepeat(u.Suffix(), k);
    assert num + [] == num;
  }

  /** `<n>KB`, `<n>MB` and `<n>GB`, where n is any text parseLong accepts
      (a sign, leading zeros) and the suffix may be written several times
      (every copy is removed), give n times 1024, 1024^2 or 1024^3 in long
      arithmetic; a number outside the range of long gives 0. */
  lemma ParseSizeSuffixed(num: string, u: Unit, k: nat)
    requires WellFormedLong(num) && k > 0
    ensures Canonical(num + Repeat(u.Suffix(), k)) == num + Repeat(u.Suffix(), k)
    ensures ParseSizeToBytes(Some(num + Repeat(u.Suffix(), k)))
      == if IsLong(SignedValue(num)) then Wrap64(SignedValue(num) * u.Scale()) else 0
  {
    var s := num + Repeat(u.Suffix(), k);
    SuffixedCharacters(num, u, k);
    CanonicalUnchanged(s);
    SuffixRemoved(num, u, k);
    assert SizeOf(s) == Scaled(ParseLong(num), u.Scale());
  }

  /** The same for the text Long.toString writes. */
  lemma ParseSizeSuffixedLong(n: int, u: Unit, k: nat)
    requires IsLong(n) && k > 0
    ensures Canonical(LongToString(n) + Repeat(u.Suffix(), k)) == LongToString(n) + Repeat(u.Suffix(), k)
    ensures ParseSizeToBytes(Some(LongToString(n) + Repeat(u.Suffix(), k))) == Wrap64(n * u.Scale())
  {
    ParseLongToString(n);
    ParseSizeSuffixed(LongToString(n), u, k);
  }

  /** A number without a suffix is read as a plain count of bytes, or as 0
      when it is outside the range of long. */
  lemma ParseSizePlain(num: string)
    requires WellFormedLong(num)
    ensures ParseSizeToBytes(Some(num)) == if IsLong(SignedValue(num)) then SignedValue(num) else 0
  {
    WellFormedLongCharacters(num);
    CanonicalUnchanged(num);
    assert forall u: Unit :: !EndsWith(num, u.Suffix()) by {
      assert IsDigit(num[|num| - 1]);
    }
  }

  lemma FiveHundredText()
    ensures LongToString(500) == "500"
  {
    assert NatToDecimal(5) == "5";
    assert NatToDecimal(50) == "50";
  }

  /** "+0500MB" is 500 MiB: a '+' sign and leading zeros are accepted. */
  lemma SignedZeroPaddedExample(s: string)
    requires s == "+0500MB"
    ensures ParseSizeToBytes(Some(s)) == 500 * 1024 * 1024
  {
    var num := "+" + "0" + LongToString(500);
    assert s == num + Repeat("MB", 1) by {
      FiveHundredText();
    }
    assert WellFormedLong(num) && SignedValue(num) == 500 by {
      LongToStringCharacters(500);
      ParseLongToString(500);
      ParseLongIgnoresZerosAndPlus("0", LongToString(500));
    }
    ParseSizeSuffixed(num, MB, 1);
  }

  /** "-0MB" is 0. */
  lemma NegativeZeroExample(s: string)
    requires s == "-0MB"
    ensures ParseSizeToBytes(Some(s)) == 0
  {
    var num := "-0";
    assert s == num + Repeat("MB", 1);
    assert WellFormedLong(num) && SignedValue(num) == 0 by {
      assert Unsigned(num) == "0";
    }
    ParseSizeSuffixed(num, MB, 1);
  }

  /** "5MB0MB" is 50 MiB: every occurrence of the suffix is removed, not
      just the last one, and the digits on either side are read as one
      number. */
  lemma InnerSuffixExample(s: string)
    requires s == "5MB0MB"
    ensures ParseSizeToBytes(Some(s)) == 50 * 1024 * 1024
  {
    var u := MB;
    assert Canonical(s) == s && EndsWith(s, u.Suffix()) by {
      CanonicalUnchanged(s);
    }
    assert RemoveAll(s, u.Suffix()) == LongToString(50) by {
      InnerSuffixRemoved(s);
    }
    ParseLongToString(50);
  }

  lemma InnerSuffixRemoved(s: string)
    requires s == "5MB0MB"
    ensures RemoveAll(s, "MB") == LongToString(50)
  {
    assert s == "5" + "MB" + "0" + "MB";
    RemoveTwoOccurrences("5", "0", "MB");
    assert LongToString(50) == "5" + "0" by {
      assert NatToDecimal(5) == "5";
    }
  }

  lemma RemoveTwoOccurrences(a: string, b: string, t: string)
    requires t != [] && t[0] !in a && t[0] !in b
    ensures RemoveAll(a + t + b + t, t) == a + b
  {
    assert a + t + b + t == a + t + (b + t);
    RemoveAllOccurrence(a, t, b + t);
    assert b + t == b + t + [];
    RemoveAllOccurrence(b, t, []);
  }

  /** "5MBMB" is 5 MiB: every copy of the suffix is removed. */
  lemma DoubledSuffixExample(s: string)
    requires s == "5MBMB"
    ensures ParseSizeToBytes(Some(s)) == 5 * 1024 * 1024
  {
    assert LongToString(5) + Repeat("MB", 2) == s;
    ParseSizeSuffixedLong(5, MB, 2);
  }

  lemma WrapAboveLongMax(x: int)
    requires LongMax < x <= LongMax + LongModulus
    ensures Wrap64(x) == x - LongModulus
  {
  }

  /** A megabyte count from 2^43 up to 2^44 overflows long and wraps to a
      negative ceiling, which rejects every upload. */
  lemma MegabyteOverflow(n: int)
    requires 0x800_0000_0000 <= n < 0x1000_0000_0000
    ensures ParseSizeToBytes(Some(LongToString(n) + "MB")) == n * 0x10_0000 - LongModulus < 0
  {
    ParseSizeSuffixedLong(n, MB, 1);
    assert Repeat("MB", 1) == "MB";
    WrapAboveLongMax(n * 0x10_0000);
  }

  // ---------------------------------------------------------------------
  // unparsable values give 0
  // ---------------------------------------------------------------------

  /** A character that is neither a digit, a sign nor a letter of a suffix
      survives the suffix removal and makes parseLong throw: the ceiling is 0. */
  lemma ParseSizeForeignCharacter(raw: string, c: char)
    requires c in Canonical(raw)
    requires !IsDigit(c) && c !in "+-KMGB"
    ensures ParseSizeToBytes(Some(raw)) == 0
  {
    var s := Canonical(raw);
    if u: Unit :| EndsWith(s, u.Suffix()) {
      SuffixLetters(u, c);
      ParseLongRejects(RemoveAll(s, u.Suffix()), c);
      assert SizeOf(s) == Scaled(None, u.Scale());
    } else {
      ParseLongRejects(s, c);
    }
  }

  lemma SuffixLetters(u: Unit, c: char)
    requires c !in "+-KMGB"
    ensures c !in u.Suffix()
  {
  }

  /** A suffix with no number in front of it gives 0. */
  lemma BareSuffix(u: Unit)
    ensures ParseSizeToBytes(Some(u.Suffix())) == 0
  {
    var s := u.Suffix();
    CanonicalUnchanged(s);
    assert Repeat(s, 1) == s;
    RemoveAllRepeat(s, 1);
    assert ParseLong([]) == None;
    assert EndsWith(s, s);
  }

  /** "500B": a unit the parser does not know is left in place and the
      number does not parse. */
  lemma UnknownUnitExample(s: string)
    requires s == "500B"
    ensures ParseSizeToBytes(Some(s)) == 0
  {
    CanonicalUnchanged(s);
    assert !EndsWith(s, "MB") && !EndsWith(s, "KB") && !EndsWith(s, "GB") by {
      assert s[2] == '0';
    }
    assert !AllDigits(Unsigned(s)) by { assert !IsDigit(s[3]); }
  }

  /** A word gives 0. */
  lemma WordExample(s: string)
    requires s == "abc"
    ensures ParseSizeToBytes(Some(s)) == 0
  {
    assert TrimStart(s) == s;
    assert TrimEnd(s) == s;
    assert Canonical(s)[0] == 'A';
    ParseSizeForeignCharacter(s, 'A');
  }
}
