/** Python string facts that several components rely on: whitespace, strip, joins and line splitting. */
module PyText {
  datatype Option<+T> = None | Some(value: T)

  /** The characters for which `str.isspace` holds; `str.strip` and the regular-expression class `\s` use the same set. */
  predicate IsSpace(c: char) {
    || '\t' <= c <= '\r' || '\U{1c}' <= c <= ' ' || c == '\U{85}' || c == '\U{a0}' || c == '\U{1680}'
    || '\U{2000}' <= c <= '\U{200a}' || c == '\U{2028}' || c == '\U{2029}' || c == '\U{202f}'
    || c == '\U{205f}' || c == '\U{3000}'
  }

  /** The same set by code points. */
  lemma {:induction false} SpaceCodes(c: char)
    ensures IsSpace(c) <==> var n := c as int;
      9 <= n <= 13 || 28 <= n <= 32 || 8192 <= n <= 8202 || n in {133, 160, 5760, 8232, 8233, 8239, 8287, 12288}
  {
  }

  predicate Blank(s: string) {
    forall i | 0 <= i < |s| :: IsSpace(s[i])
  }

  /** No whitespace at either end: exactly the fixed points of `strip`. */
  predicate Trimmed(s: string) {
    s == "" || (!IsSpace(s[0]) && !IsSpace(s[|s| - 1]))
  }

  /** The first index from `i` on that holds no whitespace. */
  function SkipSpace(s: string, i: nat): (n: nat)
    requires i <= |s|
    ensures i <= n <= |s| && forall k | i <= k < n :: IsSpace(s[k])
    ensures n < |s| ==> !IsSpace(s[n])
    decreases |s| - i
  {
    if i < |s| && IsSpace(s[i]) then SkipSpace(s, i + 1) else i
  }

  /** The end of the part of `s[lo..]` that remains when trailing whitespace is dropped. */
  function DropSpace(s: string, lo: nat, hi: nat): (n: nat)
    requires lo <= hi <= |s|
    ensures lo <= n <= hi && forall k | n <= k < hi :: IsSpace(s[k])
    ensures n > lo ==> !IsSpace(s[n - 1])
  {
    if lo < hi && IsSpace(s[hi - 1]) then DropSpace(s, lo, hi - 1) else hi
  }

  function RStrip(s: string): (r: string)
    ensures |r| <= |s| && r == s[..|r|] && Blank(s[|r|..])
    ensures r == "" || !IsSpace(r[|r| - 1])
  {
    s[..DropSpace(s, 0, |s|)]
  }

  function Strip(s: string): (r: string)
    ensures Trimmed(r)
  {
    var lo := SkipSpace(s, 0);
    s[lo..DropSpace(s, lo, |s|)]
  }

  /** Stripping recovers a trimmed core from any whitespace padding. */
  lemma {:induction false} StripPadded(a: string, core: string, b: string)
    requires Blank(a) && Blank(b) && Trimmed(core)
    ensures Strip(a + core + b) == core
  {
    hide IsSpace;
    var s := a + core + b;
    var lo := SkipSpace(s, 0);
    var hi := DropSpace(s, lo, |s|);
    assert forall k | 0 <= k < |a| :: s[k] == a[k];
    assert forall k | |a| + |core| <= k < |s| :: s[k] == b[k - |a| - |core|];
    if core != "" {
      assert s[|a|] == core[0] && s[|a| + |core| - 1] == core[|core| - 1];
      assert lo == |a| && hi == |a| + |core|;
    }
  }

  /** Every string is its stripped core with whitespace on both sides. */
  lemma {:induction false} StripSplits(s: string) returns (a: string, b: string)
    ensures s == a + Strip(s) + b && Blank(a) && Blank(b)
  {
    hide IsSpace;
    var lo := SkipSpace(s, 0);
    var hi := DropSpace(s, lo, |s|);
    a, b := s[..lo], s[hi..];
  }

  /** Padding with whitespace does not change what strip returns. */
  lemma {:induction false} StripIgnoresPadding(a: string, s: string, b: string)
    requires Blank(a) && Blank(b)
    ensures Strip(a + s + b) == Strip(s)
  {
    hide IsSpace, Strip;
    var a', b' := StripSplits(s);
    assert a + s + b == (a + a') + Strip(s) + (b' + b);
    StripPadded(a + a', Strip(s), b' + b);
  }

  lemma {:induction false} StripIdempotent(s: string)
    ensures Strip(Strip(s)) == Strip(s)
  {
    hide IsSpace, Strip;
    assert "" + Strip(s) + "" == Strip(s);
    StripPadded("", Strip(s), "");
  }

  /** The first index of `c`, or the length when `c` does not occur. */
  function IndexOf(s: string, c: char): (n: nat)
    ensures n <= |s| && forall i | 0 <= i < n :: s[i] != c
    ensures n < |s| ==> s[n] == c
  {
    if s == "" || s[0] == c then 0 else 1 + IndexOf(s[1..], c)
  }

  lemma {:induction false} IndexOfUnique(s: string, c: char, n: nat)
    requires n < |s| && s[n] == c && forall i | 0 <= i < n :: s[i] != c
    ensures IndexOf(s, c) == n
  {
  }

  /** `text.split('\n')` */
  function SplitNl(s: string): (r: seq<string>)
    ensures r != []
    ensures forall i | 0 <= i < |r| :: '\n' !in r[i]
  {
    var n := IndexOf(s, '\n');
    if n == |s| then [s] else [s[..n]] + SplitNl(s[n + 1..])
  }

  /** Splitting distributes over a newline. */
  lemma {:induction false} SplitAtNl(a: string, b: string)
    ensures SplitNl(a + "\n" + b) == SplitNl(a) + SplitNl(b)
    decreases |a|
  {
    hide IndexOf;
    var s := a + "\n" + b;
    var n := IndexOf(a, '\n');
    if n == |a| {
      assert s[..n] == a && s[n] == '\n' && s[n + 1..] == b;
      IndexOfUnique(s, '\n', n);
    } else {
      assert s[..n] == a[..n] && s[n] == '\n' && s[n + 1..] == a[n + 1..] + "\n" + b;
      IndexOfUnique(s, '\n', n);
      SplitAtNl(a[n + 1..], b);
    }
  }

  /** `' '.join(parts)` */
  function JoinSpace(parts: seq<string>): string {
    if parts == [] then "" else if |parts| == 1 then parts[0] else parts[0] + " " + JoinSpace(parts[1..])
  }
}
