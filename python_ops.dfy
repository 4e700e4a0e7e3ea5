/** The few Python built-ins the core relies on, with Python's own semantics:
    slicing with negative or out-of-range bounds, `str.strip()`, `str.join`
    and `str(n)` for a natural number. */
module PythonOps {

  function Min(a: int, b: int): int { if a <= b then a else b }

  /** How Python turns a slice bound `i` into a position of a sequence of
      length `n`: negative bounds count from the end, and both kinds clamp. */
  function SliceBound(i: int, n: nat): (b: nat)
    ensures b <= n
    ensures 0 <= i <= n ==> b == i
    ensures i < 0 && -i <= n ==> b == n + i
  {
    if i < 0 then (if i + n < 0 then 0 else i + n)
    else if i > n then n
    else i
  }

  /** `s[i:j]` with step 1. */
  function Slice<T>(s: seq<T>, i: int, j: int): (r: seq<T>)
    ensures 0 <= i <= j <= |s| ==> r == s[i..j]
    ensures i <= j ==> |r| <= j - i
  {
    var lo, hi := SliceBound(i, |s|), SliceBound(j, |s|);
    if lo < hi then s[lo..hi] else []
  }

  /** `s[i:]`. A negative `i` keeps the last `-i` elements (all of them when
      there are fewer); a non-negative `i` drops the first `i`. */
  function SliceFrom<T>(s: seq<T>, i: int): (r: seq<T>)
    ensures i < 0 ==> r == s[|s| - Min(-i, |s|)..]
    ensures i >= 0 ==> r == s[Min(i, |s|)..]
  {
    Slice(s, i, |s|)
  }

  /** Two adjacent pieces of a sequence make up the piece that spans both. */
  lemma PrefixThenSlice<T>(s: seq<T>, i: int, j: int)
    requires 0 <= i <= j <= |s|
    ensures s[..i] + s[i..j] == s[..j]
  {
  }

  /** The characters for which Python's `str.isspace()` holds. */
  predicate IsSpace(c: char)
  {
    var k := c as int;
    k == 0x20 || 0x09 <= k <= 0x0D || 0x1C <= k <= 0x1F || k == 0x85 || k == 0xA0
    || k == 0x1680 || 0x2000 <= k <= 0x200A || k == 0x2028 || k == 0x2029
    || k == 0x202F || k == 0x205F || k == 0x3000
  }

  /** `s.lstrip()`: the suffix of `s` left after its leading whitespace. */
  function LStrip(s: string): (r: string)
    ensures |r| <= |s| && r == s[|s| - |r|..]
    ensures forall k :: 0 <= k < |s| - |r| ==> IsSpace(s[k])
    ensures r == [] || !IsSpace(r[0])
  {
    if s != [] && IsSpace(s[0]) then LStrip(s[1..]) else s
  }

  /** `s.rstrip()`: the prefix of `s` left before its trailing whitespace. */
  function RStrip(s: string): (r: string)
    ensures |r| <= |s| && r == s[..|r|]
    ensures forall k :: |r| <= k < |s| ==> IsSpace(s[k])
    ensures r == [] || !IsSpace(r[|r| - 1])
  {
    if s != [] && IsSpace(s[|s| - 1]) then RStrip(s[..|s| - 1]) else s
  }

  /** `s.strip()`. */
  function Strip(s: string): (r: string)
    ensures r == [] || (!IsSpace(r[0]) && !IsSpace(r[|r| - 1]))
  {
    RStrip(LStrip(s))
  }

  /** Stripping removes only whitespace: what is left is a contiguous piece of
      `s` with nothing but whitespace on either side of it, and stripping
      again changes nothing. */
  lemma StripIsTrimmedInfix(s: string)
    ensures var r := Strip(s); var lo := |s| - |LStrip(s)|;
      lo + |r| <= |s| && r == s[lo..lo + |r|]
      && (forall k :: 0 <= k < lo ==> IsSpace(s[k]))
      && (forall k :: lo + |r| <= k < |s| ==> IsSpace(s[k]))
      && Strip(r) == r
  {
    var l := LStrip(s);
    var r := RStrip(l);
    var lo := |s| - |l|;
    assert l == s[lo..];
    assert r == l[..|r|];
    forall k | lo + |r| <= k < |s| ensures IsSpace(s[k]) {
      assert s[k] == l[k - lo];
    }
    assert LStrip(r) == r;
    assert RStrip(r) == r;
  }

  /** `sep.join(parts)`. */
  function Join(sep: string, parts: seq<string>): string
  {
    if |parts| == 0 then ""
    else if |parts| == 1 then parts[0]
    else Join(sep, parts[..|parts| - 1]) + sep + parts[|parts| - 1]
  }

  /** Joining one more part adds the separator and the part at the end. */
  lemma JoinAppend(sep: string, parts: seq<string>, x: string)
    ensures Join(sep, parts + [x]) == if parts == [] then x else Join(sep, parts) + sep + x
  {
    assert (parts + [x])[..|parts|] == parts;
  }

  /** `sub` occurs in `s` starting at position `i`. */
  predicate InfixAt(s: string, sub: string, i: int)
  {
    0 <= i && i + |sub| <= |s| && s[i..i + |sub|] == sub
  }

  /** Python's `sub in s` on strings, scanning from the left. */
  function Contains(s: string, sub: string): bool
  {
    if |s| < |sub| then false
    else s[..|sub|] == sub || Contains(s[1..], sub)
  }

  /** The scan finds `sub` exactly when it occurs somewhere in `s`. */
  lemma {:induction false} ContainsIff(s: string, sub: string)
    ensures Contains(s, sub) <==> exists i :: InfixAt(s, sub, i)
  {
    if |s| >= |sub| {
      if s[..|sub|] == sub {
        assert InfixAt(s, sub, 0);
        return;
      }
      ContainsIff(s[1..], sub);
      if Contains(s[1..], sub) {
        var i :| InfixAt(s[1..], sub, i);
        assert s[i + 1..i + 1 + |sub|] == s[1..][i..i + |sub|];
        assert InfixAt(s, sub, i + 1);
      }
      if exists i :: InfixAt(s, sub, i) {
        var i :| InfixAt(s, sub, i);
        if i > 0 {
          assert s[1..][i - 1..i - 1 + |sub|] == s[i..i + |sub|];
          assert InfixAt(s[1..], sub, i - 1);
        }
      }
    }
  }

  /** With the empty separator, joining one more part appends the part. */
  lemma ConcatAppend(parts: seq<string>, x: string)
    ensures Join("", parts + [x]) == Join("", parts) + x
  {
    JoinAppend("", parts, x);
    if parts != [] {
      assert Join("", parts) + "" == Join("", parts);
    }
  }

  /** The decimal digit for `d`. */
  function DigitChar(d: nat): (c: char)
    requires d < 10
    ensures '0' <= c <= '9' && c as int - '0' as int == d
  {
    "0123456789"[d]
  }

  /** `str(n)` for a natural number: its decimal numeral without leading zeros. */
  function NatToString(n: nat): (s: string)
    ensures |s| >= 1
    ensures forall k :: 0 <= k < |s| ==> '0' <= s[k] <= '9'
    ensures |s| > 1 ==> s[0] != '0'
  {
    if n < 10 then [DigitChar(n)] else NatToString(n / 10) + [DigitChar(n % 10)]
  }

  /** The number a string of decimal digits denotes (the inverse of `NatToString`). */
  function DecimalValue(s: string): int
  {
    if s == [] then 0
    else 10 * DecimalValue(s[..|s| - 1]) + (s[|s| - 1] as int - '0' as int)
  }

  /** `str(n)` can be read back: it denotes `n`, so distinct ranks get
      distinct labels. */
  lemma {:induction false} NatToStringRoundTrip(n: nat)
    ensures DecimalValue(NatToString(n)) == n
  {
    if n >= 10 {
      NatToStringRoundTrip(n / 10);
      var s := NatToString(n);
      assert s[..|s| - 1] == NatToString(n / 10);
    }
  }
}
