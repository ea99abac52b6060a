// The string helpers the GEO importer ships for itself: a case-folding
// substring search, a case-insensitive three-way comparison (both only built
// for Windows) and a base-16 conversion truncated to 32 bits.
module GeoHelper {
  import opened ParsingUtils

  datatype Option<T> = None | Some(value: T)

  /** The contents of a C string: every character before its terminator. */
  type CString = s: seq<char> | '\0' !in s

  /** c | 32, the folding strcasestr applies to both sides (not tolower: '@' folds onto '`', '\0' onto ' '). */
  function Or32(c: char): nat
  {
    var n := c as nat;
    if (n / 32) % 2 == 1 then n else n + 32
  }

  predicate FoldEq(a: char, b: char) { Or32(a) == Or32(b) }

  /** tolower in the C locale. */
  function ToLower(c: char): int
  {
    if 'A' <= c <= 'Z' then c as int + 32 else c as int
  }

  // ---------------------------------------------------------------------
  // strcasestr

  /** The first k characters of the needle fold-equal the terminated haystack t from position i on. */
  ghost predicate PrefixAgrees(t: seq<char>, i: nat, needle: seq<char>, k: nat)
  {
    i + k <= |t| && k <= |needle| && forall c :: 0 <= c < k ==> FoldEq(t[i + c], needle[c])
  }

  /** The whole needle fold-equals t from position i on. */
  ghost predicate FoldMatchAt(t: seq<char>, i: nat, needle: seq<char>)
  {
    PrefixAgrees(t, i, needle, |needle|)
  }

  /**
   * The comparison loop started at i would read past the terminator of the
   * haystack: every character up to and including the terminator agreed and
   * the needle goes on.
   */
  ghost predicate OverrunAt(t: seq<char>, i: nat, needle: seq<char>)
  {
    i < |t| && |t| - i < |needle| && PrefixAgrees(t, i, needle, |t| - i)
  }

  /** No start position the search reaches makes it read past the haystack's terminator. */
  ghost predicate SearchStaysInBounds(hay: CString, needle: CString)
  {
    var t := hay + ['\0'];
    forall i :: 0 <= i < |hay| && OverrunAt(t, i, needle) ==>
      exists j :: 0 <= j < i && FoldMatchAt(t, j, needle)
  }

  /**
   * strcasestr: the leftmost start position in arg1 at which every character
   * of arg2 equals the haystack character under c | 32, or None. The
   * haystack's terminator takes part in the comparison.
   */
  method StrCaseStr(arg1: CString, arg2: CString) returns (r: Option<nat>)
    requires |arg2| > 0
    requires SearchStaysInBounds(arg1, arg2)
    ensures r.Some? ==> r.value < |arg1| && FoldMatchAt(arg1 + ['\0'], r.value, arg2)
    ensures r.Some? ==> forall j :: 0 <= j < r.value ==> !FoldMatchAt(arg1 + ['\0'], j, arg2)
    ensures r.None? <==> forall j :: 0 <= j < |arg1| ==> !FoldMatchAt(arg1 + ['\0'], j, arg2)
  {
    var t := arg1 + ['\0'];
    var i := 0;
    while i < |arg1|
      invariant 0 <= i <= |arg1|
      invariant forall j :: 0 <= j < i ==> !FoldMatchAt(t, j, arg2)
    {
      assert !OverrunAt(t, i, arg2);
      var a, b := i, 0;
      while FoldEq(t[a], arg2[b])
        invariant 0 <= b < |arg2| && a == i + b && a < |t|
        invariant PrefixAgrees(t, i, arg2, b)
        decreases |arg2| - b
      {
        a, b := a + 1, b + 1;
        if b == |arg2| {
          assert FoldMatchAt(t, i, arg2);
          return Some(i);
        }
      }
      i := i + 1;
    }
    return None;
  }

  // ---------------------------------------------------------------------
  // strcasecmp

  /** Reference definition of the three-way comparison under tolower. */
  function CompareFolded(s1: seq<char>, s2: seq<char>): int
  {
    if |s2| == 0 then (if |s1| == 0 then 0 else 1)
    else if |s1| == 0 then -1
    else if ToLower(s1[0]) != ToLower(s2[0]) then ToLower(s1[0]) - ToLower(s2[0])
    else CompareFolded(s1[1..], s2[1..])
  }

  /** The first k characters of s1 and s2 are equal under tolower. */
  ghost predicate FoldAgreeUpTo(s1: seq<char>, s2: seq<char>, k: nat)
  {
    k <= |s1| && k <= |s2| && forall j :: 0 <= j < k ==> ToLower(s1[j]) == ToLower(s2[j])
  }

  /** strcasecmp: walks both strings while they agree under tolower. */
  method StrCaseCmp(s1: CString, s2: CString) returns (r: int)
    ensures r == CompareFolded(s1, s2)
  {
    var i := 0;
    while At(s1, i) != '\0' && ToLower(At(s1, i)) == ToLower(At(s2, i))
      invariant 0 <= i <= |s1| && i <= |s2|
      invariant CompareFolded(s1, s2) == CompareFolded(s1[i..], s2[i..])
      decreases |s1| - i
    {
      assert s1[i..][1..] == s1[i + 1..] && s2[i..][1..] == s2[i + 1..];
      i := i + 1;
    }
    if At(s2, i) == '\0' {
      r := if At(s1, i) != '\0' then 1 else 0;
    } else if At(s1, i) == '\0' {
      r := -1;
    } else {
      r := ToLower(At(s1, i)) - ToLower(At(s2, i));
    }
  }

  /** strcasecmp is 0 exactly when both strings have the same length and agree under tolower everywhere. */
  lemma {:induction false} CompareFoldedZero(s1: CString, s2: CString)
    ensures CompareFolded(s1, s2) == 0 <==> (|s1| == |s2| && FoldAgreeUpTo(s1, s2, |s1|))
  {
    if |s1| > 0 && |s2| > 0 {
      CompareFoldedZero(s1[1..], s2[1..]);
      if ToLower(s1[0]) == ToLower(s2[0]) && |s1| == |s2| && FoldAgreeUpTo(s1[1..], s2[1..], |s1| - 1) {
        assert forall j :: 1 <= j < |s1| ==> s1[j] == s1[1..][j - 1] && s2[j] == s2[1..][j - 1];
      }
      if ToLower(s1[0]) != ToLower(s2[0]) {
        assert ToLower(s1[0]) - ToLower(s2[0]) != 0;
      }
    } else if |s1| > 0 {
      assert s1[0] != '\0';
    }
  }

  /** A proper prefix (under tolower) compares as -1 against the longer string, and the longer one as 1. */
  lemma {:induction false} CompareFoldedPrefix(s1: CString, s2: CString)
    requires |s1| < |s2| && FoldAgreeUpTo(s1, s2, |s1|)
    ensures CompareFolded(s1, s2) == -1 && CompareFolded(s2, s1) == 1
  {
    if |s1| > 0 {
      assert FoldAgreeUpTo(s1[1..], s2[1..], |s1| - 1) by {
        assert forall j :: 0 <= j < |s1| - 1 ==> s1[1..][j] == s1[j + 1] && s2[1..][j] == s2[j + 1];
      }
      CompareFoldedPrefix(s1[1..], s2[1..]);
    }
  }

  /** Otherwise the result is the tolower difference at the first disagreement. */
  lemma {:induction false} CompareFoldedMismatch(s1: CString, s2: CString, k: nat)
    requires FoldAgreeUpTo(s1, s2, k) && k < |s1| && k < |s2|
    requires ToLower(s1[k]) != ToLower(s2[k])
    ensures CompareFolded(s1, s2) == ToLower(s1[k]) - ToLower(s2[k])
  {
    if k > 0 {
      assert ToLower(s1[0]) == ToLower(s2[0]);
      assert FoldAgreeUpTo(s1[1..], s2[1..], k - 1) by {
        assert forall j :: 0 <= j < k - 1 ==> s1[1..][j] == s1[j + 1] && s2[1..][j] == s2[j + 1];
      }
      CompareFoldedMismatch(s1[1..], s2[1..], k - 1);
    }
  }

  /** Swapping the arguments negates the result, so the sign is antisymmetric. */
  lemma {:induction false} CompareFoldedAntisymmetric(s1: seq<char>, s2: seq<char>)
    ensures CompareFolded(s1, s2) == -CompareFolded(s2, s1)
  {
    if |s1| > 0 && |s2| > 0 && ToLower(s1[0]) == ToLower(s2[0]) {
      CompareFoldedAntisymmetric(s1[1..], s2[1..]);
    }
  }

  // ---------------------------------------------------------------------
  // hexstrtoul10

  const UINT64_MODULUS: nat := 0x1_0000_0000_0000_0000

  /** isspace in the C locale: blank, \t, \n, \v, \f, \r. */
  predicate IsCSpace(c: char) { c == ' ' || 9 <= c as int <= 13 }

  function CSpacesEnd(s: seq<char>, i: nat): (j: nat)
    requires i <= |s|
    ensures i <= j <= |s|
    decreases |s| - i
  {
    if i < |s| && IsCSpace(s[i]) then CSpacesEnd(s, i + 1) else i
  }

  /** Where the hexadecimal digits strtoull(…, 16) reads begin: after blanks, a sign and a 0x prefix. */
  function HexDigitsStart(s: seq<char>, i: nat): (d: nat)
    requires i <= |s|
    ensures i <= d <= |s|
  {
    var j := CSpacesEnd(s, i);
    var k := if At(s, j) == '-' || At(s, j) == '+' then j + 1 else j;
    if At(s, k) == '0' && (At(s, k + 1) == 'x' || At(s, k + 1) == 'X') && IsHexDigit(At(s, k + 2))
    then k + 2 else k
  }

  /** strtoull(…, 16): saturates at ULLONG_MAX on overflow, negates modulo 2^64 after a '-'. */
  function Strtoull16(s: seq<char>, i: nat): (v: nat)
    requires i <= |s|
    ensures v < UINT64_MODULUS
  {
    var d := HexDigitsStart(s, i);
    var v := HexDigitsValue(s, d, HexDigitsEnd(s, d));
    var negative := At(s, CSpacesEnd(s, i)) == '-';
    if v >= UINT64_MODULUS then UINT64_MODULUS - 1
    else if negative then (UINT64_MODULUS - v) % UINT64_MODULUS
    else v
  }

  /**
   * hexstrtoul10: the base-16 value at position i truncated to 32 bits. The
   * caller's end pointer is never written (the conversion stores its end
   * pointer into its own parameter), so only the value is modelled.
   */
  function HexStrToUl10(s: seq<char>, i: nat): (r: nat)
    requires i <= |s|
    ensures r < UINT32_MODULUS
  {
    Strtoull16(s, i) % UINT32_MODULUS
  }

  lemma {:induction false} HexDigitsEndOfRun(s: seq<char>, i: nat, j: nat)
    requires i <= j <= |s|
    requires forall k :: i <= k < j ==> IsHexDigit(s[k])
    requires !IsHexDigit(At(s, j))
    ensures HexDigitsEnd(s, i) == j
    decreases j - i
  {
    if i < j {
      HexDigitsEndOfRun(s, i + 1, j);
    }
  }

  /** A 32-bit number printed with %X (and preceded by blanks) reads back through hexstrtoul10. */
  lemma HexStrToUl10ReadsFormattedHex(blanks: nat, v: nat)
    requires v < UINT32_MODULUS
    ensures HexStrToUl10(seq(blanks, _ => ' ') + FormatHex(v), 0) == v
  {
    var h := FormatHex(v);
    var s := seq(blanks, _ => ' ') + h;
    FormatHexRoundTrip(v);
    assert s[blanks..] == h;
    assert forall k :: 0 <= k < blanks ==> s[k] == ' ';
    assert HexValue(s[blanks..]) < UINT64_MODULUS;
    Strtoull16ReadsPlainHex(s, blanks);
    ModOfSmaller(v, UINT32_MODULUS);
  }

  lemma ModOfSmaller(v: nat, m: nat)
    requires v < m
    ensures v % m == v
  {
  }

  /** strtoull(…, 16) over blanks followed by nothing but hex digits reads exactly those digits. */
  lemma Strtoull16ReadsPlainHex(s: seq<char>, d: nat)
    requires d < |s|
    requires forall k :: 0 <= k < d ==> s[k] == ' '
    requires AllHexDigits(s[d..]) && HexValue(s[d..]) < UINT64_MODULUS
    ensures Strtoull16(s, 0) == HexValue(s[d..])
    ensures HexStrToUl10(s, 0) == HexValue(s[d..]) % UINT32_MODULUS
  {
    assert IsHexDigit(s[d..][0]);
    CSpacesEndOfRun(s, 0, d);
    assert HexDigitsStart(s, 0) == d by {
      if d + 1 < |s| {
        assert IsHexDigit(s[d..][1]);
      }
    }
    assert forall k :: d <= k < |s| ==> IsHexDigit(s[k]) by {
      forall k | d <= k < |s| ensures IsHexDigit(s[k]) {
        assert s[k] == s[d..][k - d];
      }
    }
    HexDigitsEndOfRun(s, d, |s|);
    assert s[d..HexDigitsEnd(s, d)] == s[d..];
    HexDigitsValueIsHexValue(s, d, |s|);
    assert At(s, CSpacesEnd(s, 0)) == s[d..][0];
  }

  lemma {:induction false} CSpacesEndOfRun(s: seq<char>, i: nat, j: nat)
    requires i <= j <= |s|
    requires forall k :: i <= k < j ==> IsCSpace(s[k])
    requires !IsCSpace(At(s, j))
    ensures CSpacesEnd(s, i) == j
    decreases j - i
  {
    if i < j {
      CSpacesEndOfRun(s, i + 1, j);
    }
  }
}
