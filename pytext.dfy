/**
 * The Python 2 string and sequence primitives that the sampler relies on,
 * with the byte-string semantics of Python 2 `str`.
 */
module PyText {

  /** `str.isspace` on one character: space, tab, newline, vertical tab, form feed, carriage return. */
  predicate IsSpace(c: char) {
    c == ' ' || '\t' <= c <= '\r'
  }

  predicate AllSpace(s: string) {
    forall i :: 0 <= i < |s| ==> IsSpace(s[i])
  }

  predicate NoSpace(s: string) {
    forall i :: 0 <= i < |s| ==> !IsSpace(s[i])
  }

  /** The number of whitespace characters `s` starts with. */
  function LeadingSpace(s: string): (k: nat)
    ensures k <= |s| && AllSpace(s[..k])
    ensures k == |s| || !IsSpace(s[k])
  {
    if s == [] || !IsSpace(s[0]) then 0
    else
      var k := 1 + LeadingSpace(s[1..]);
      assert s[..k] == [s[0]] + s[1..][..k - 1];
      k
  }

  /** The number of whitespace characters just before index `n` of `s`. */
  function SpaceBefore(s: string, n: nat): (k: nat)
    requires n <= |s|
    ensures k <= n && forall i :: n - k <= i < n ==> IsSpace(s[i])
    ensures k == n || !IsSpace(s[n - k - 1])
  {
    if n == 0 || !IsSpace(s[n - 1]) then 0 else 1 + SpaceBefore(s, n - 1)
  }

  /** The number of whitespace characters `s` ends with. */
  function TrailingSpace(s: string): (k: nat)
    ensures k <= |s| && AllSpace(s[|s| - k..])
    ensures k == |s| || !IsSpace(s[|s| - k - 1])
  {
    var k := SpaceBefore(s, |s|);
    var t := s[|s| - k..];
    assert AllSpace(t) by {
      forall i | 0 <= i < |t|
        ensures IsSpace(t[i])
      {
        assert t[i] == s[|s| - k + i];
      }
    }
    k
  }

  /** `s.lstrip()`. */
  function TrimStart(s: string): string {
    s[LeadingSpace(s)..]
  }

  /** `s.rstrip()`. */
  function TrimEnd(s: string): string {
    s[..|s| - TrailingSpace(s)]
  }

  /** `s.strip()`: what is left neither starts nor ends with whitespace. */
  function Strip(s: string): (r: string)
    ensures r == [] || (!IsSpace(r[0]) && !IsSpace(r[|r| - 1]))
  {
    TrimEnd(TrimStart(s))
  }

  /** The length of the leading run of non-whitespace characters of `s`. */
  function TokenLength(s: string): (k: nat)
    ensures k <= |s| && NoSpace(s[..k])
    ensures k == |s| || IsSpace(s[k])
  {
    if s == [] || IsSpace(s[0]) then 0
    else
      var k := 1 + TokenLength(s[1..]);
      assert s[..k] == [s[0]] + s[1..][..k - 1];
      k
  }

  /** The leading run of non-whitespace characters of `s`. */
  function Token(s: string): string {
    s[..TokenLength(s)]
  }

  /**
   * `s.split(None, 1)`: the first whitespace-delimited token, then, when
   * anything but whitespace follows it, the remainder with its leading
   * whitespace removed (its trailing whitespace is kept).
   */
  function SplitOnce(s: string): (parts: seq<string>)
    ensures |parts| <= 2
    ensures forall i :: 0 <= i < |parts| ==> parts[i] != [] && !IsSpace(parts[i][0])
    ensures |parts| >= 1 ==> NoSpace(parts[0])
  {
    var t := TrimStart(s);
    if t == [] then []
    else
      var w := Token(t);
      var rest := TrimStart(t[|w|..]);
      if rest == [] then [w] else [w, rest]
  }

  /** Leading whitespace before a string that starts with a non-space is all `lstrip` removes. */
  lemma {:induction false} TrimStartSkips(w: string, x: string)
    requires AllSpace(w) && (x == [] || !IsSpace(x[0]))
    ensures LeadingSpace(w + x) == |w| && TrimStart(w + x) == x
  {
    if w != [] {
      assert (w + x)[1..] == w[1..] + x;
      TrimStartSkips(w[1..], x);
    }
    assert (w + x)[|w|..] == x;
  }

  /** Trailing whitespace after a string that ends with a non-space is all `rstrip` removes. */
  lemma {:induction false} TrimEndSkips(x: string, w: string)
    requires AllSpace(w) && (x == [] || !IsSpace(x[|x| - 1]))
    ensures TrailingSpace(x + w) == |w| && TrimEnd(x + w) == x
  {
    if w != [] {
      assert (x + w)[..|x + w| - 1] == x + w[..|w| - 1];
      TrimEndSkips(x, w[..|w| - 1]);
    }
    assert (x + w)[..|x|] == x;
  }

  /** A token ends exactly where whitespace (or the string) begins. */
  lemma {:induction false} TokenStops(g: string, y: string)
    requires NoSpace(g) && (y == [] || IsSpace(y[0]))
    ensures TokenLength(g + y) == |g| && Token(g + y) == g
  {
    if g != [] {
      assert (g + y)[1..] == g[1..] + y;
      TokenStops(g[1..], y);
    }
    assert (g + y)[..|g|] == g;
  }

  /** Cutting a sequence at `k` and gluing the halves gives it back. */
  lemma Cut<X>(s: seq<X>, k: nat)
    requires k <= |s|
    ensures s == s[..k] + s[k..]
  {
  }

  lemma Assoc<X>(a: seq<X>, b: seq<X>, c: seq<X>, d: seq<X>)
    ensures a + b + c + d == a + (b + (c + d))
  {
  }

  lemma Assoc3<X>(a: seq<X>, b: seq<X>, c: seq<X>)
    ensures a + b + c == a + (b + c)
  {
  }

  /** The middle piece of a three-part concatenation sits right after the first. */
  lemma Middle<X>(a: seq<X>, b: seq<X>, c: seq<X>)
    ensures |a + b + c| == |a| + |b| + |c|
    ensures (a + b + c)[..|a|] == a && (a + b + c)[|a|..|a| + |b|] == b
    ensures (a + b + c)[|a| + |b|..] == c
  {
  }

  lemma Regroup<X>(s: seq<X>, a: seq<X>, b: seq<X>, c: seq<X>, d: seq<X>, e: seq<X>)
    requires s == a + b + c + d && |e| <= |d| && d == e + d[|e|..]
    ensures s == a + (b + c + e) + d[|e|..]
  {
  }

  /** Stripping a string that starts with a non-space only removes trailing whitespace. */
  lemma StripFromNonSpace(x: string) returns (w: string)
    requires x != [] && !IsSpace(x[0])
    ensures x == Strip(x) + w && AllSpace(w)
    ensures Strip(x) != [] && Strip(x)[0] == x[0] && !IsSpace(Strip(x)[|Strip(x)| - 1])
  {
    TrimStartSkips([], x);
    assert [] + x == x;
    w := x[|TrimEnd(x)|..];
    Cut(x, |TrimEnd(x)|);
  }

  /** `strip` removes exactly the whitespace around a string that starts and ends with a non-space. */
  lemma StripAround(w1: string, x: string, w2: string)
    requires AllSpace(w1) && AllSpace(w2)
    requires x == [] || (!IsSpace(x[0]) && !IsSpace(x[|x| - 1]))
    ensures Strip(w1 + x + w2) == x
  {
    if x == [] {
      assert w1 + x + w2 == w1 + w2;
      assert AllSpace(w1 + w2);
      TrimStartSkips(w1 + w2, []);
      assert w1 + w2 + [] == w1 + w2;
    } else {
      assert w1 + x + w2 == w1 + (x + w2);
      TrimStartSkips(w1, x + w2);
      TrimEndSkips(x, w2);
    }
  }

  /** How `split(None, 1)` cuts a string into its two parts, when it yields two. */
  lemma SplitOnceTwo(s: string) returns (w1: string, w2: string)
    requires |SplitOnce(s)| == 2
    ensures var p := SplitOnce(s);
      && AllSpace(w1) && AllSpace(w2) && w2 != [] && s == w1 + p[0] + w2 + p[1]
      && p[0] != [] && NoSpace(p[0]) && p[1] != [] && !IsSpace(p[1][0])
  {
    var t := TrimStart(s);
    var w := Token(t);
    var u := t[|w|..];
    var rest := TrimStart(u);
    w1 := s[..|s| - |t|];
    w2 := u[..|u| - |rest|];
    assert IsSpace(t[|w|]);
    assert u[0] == t[|w|];
    Cut(s, |s| - |t|);
    Cut(t, |w|);
    Cut(u, |u| - |rest|);
    Assoc(w1, w, w2, rest);
  }

  /** `split(None, 1)` of whitespace, a token, whitespace and a non-space-led rest gives the token and the rest. */
  lemma SplitOnceOf(w1: string, g: string, w2: string, x: string)
    requires AllSpace(w1) && g != [] && NoSpace(g) && AllSpace(w2) && w2 != []
    requires x != [] && !IsSpace(x[0])
    ensures SplitOnce(w1 + g + w2 + x) == [g, x]
  {
    var tail := w2 + x;
    Assoc(w1, g, w2, x);
    TrimStartSkips(w1, g + tail);
    TokenStops(g, tail);
    assert (g + tail)[|g|..] == tail;
    TrimStartSkips(w2, x);
  }

  /** `split(None, 1)` yields fewer than two parts exactly when the stripped string has no inner whitespace. */
  lemma SplitOnceShort(s: string)
    ensures |SplitOnce(s)| < 2 <==> NoSpace(Strip(s))
  {
    if |SplitOnce(s)| == 2 {
      SplitOnceTwoInner(s);
    } else if TrimStart(s) != [] {
      SplitOnceOneToken(s);
    }
  }

  lemma SplitOnceOneToken(s: string)
    requires |SplitOnce(s)| == 1
    ensures Strip(s) == SplitOnce(s)[0]
  {
    var t := TrimStart(s);
    var w := Token(t);
    var u := t[|w|..];
    Cut(t, |w|);
    assert u == u[..|u| - |TrimStart(u)|];
    TrimEndSkips(w, u);
    assert Strip(s) == TrimEnd(w + u);
  }

  lemma SplitOnceTwoInner(s: string)
    requires |SplitOnce(s)| == 2
    ensures !NoSpace(Strip(s))
  {
    var p := SplitOnce(s);
    var w1, w2 := SplitOnceTwo(s);
    var tail := StripFromNonSpace(p[1]);
    var x := p[0] + w2 + Strip(p[1]);
    assert tail == p[1][|Strip(p[1])|..];
    Regroup(s, w1, p[0], w2, p[1], Strip(p[1]));
    StripAround(w1, x, tail);
    assert x[|p[0]|] == w2[0];
  }

  /** The index of the first `c` in `s`, or `|s|` when there is none. */
  function Find(s: string, c: char): (k: nat)
    ensures k <= |s| && c !in s[..k]
    ensures k == |s| || s[k] == c
  {
    if s == [] || s[0] == c then 0
    else
      var k := 1 + Find(s[1..], c);
      assert s[..k] == [s[0]] + s[1..][..k - 1];
      k
  }

  /** `s.split(c, 1)[0]`: everything before the first occurrence of `c`. */
  function BeforeFirst(s: string, c: char): (r: string)
    ensures |r| <= |s| && r == s[..|r|] && c !in r
    ensures |r| == |s| || s[|r|] == c
  {
    s[..Find(s, c)]
  }

  /** `sep.join(parts)`: the parts in order with `sep` between them; one part is joined to itself. */
  function Join(sep: string, parts: seq<string>): (r: string)
    ensures parts != [] ==> |parts[0]| <= |r| && r[..|parts[0]|] == parts[0]
    ensures |parts| == 1 ==> r == parts[0]
    ensures |parts| >= 2 ==> |r| >= |parts[0]| + |sep| && r[|parts[0]|..|parts[0]| + |sep|] == sep
  {
    if parts == [] then ""
    else if |parts| == 1 then parts[0]
    else parts[0] + sep + Join(sep, parts[1..])
  }

  /** Python's `s[:stop]`: a negative `stop` counts from the end, and the result is clamped to `s`. */
  function SliceTo<T>(s: seq<T>, stop: int): (r: seq<T>)
    ensures |r| <= |s| && r == s[..|r|]
    ensures stop >= 0 ==> |r| == if stop <= |s| then stop else |s|
    ensures stop < 0 ==> |r| == if -stop <= |s| then |s| + stop else 0
  {
    var k := if stop < 0 then |s| + stop else stop;
    if k < 0 then [] else if k > |s| then s else s[..k]
  }

  predicate IsLineBreak(c: char) {
    c == '\n' || c == '\r'
  }

  predicate NoLineBreak(s: string) {
    forall i :: 0 <= i < |s| ==> !IsLineBreak(s[i])
  }

  /** The index of the first line break of `s`, or `|s|` when there is none. */
  function LineEnd(s: string): (k: nat)
    ensures k <= |s| && NoLineBreak(s[..k])
    ensures k < |s| ==> IsLineBreak(s[k])
  {
    if s == [] || IsLineBreak(s[0]) then 0
    else
      var k := 1 + LineEnd(s[1..]);
      assert s[..k] == [s[0]] + s[1..][..k - 1];
      k
  }

  /**
   * `s.splitlines()` on a Python 2 `str`: lines end at "\n", "\r" or "\r\n",
   * the terminators are dropped, and a final terminator does not start an
   * empty line.
   */
  function SplitLines(s: string): (lines: seq<string>)
    ensures forall i :: 0 <= i < |lines| ==> NoLineBreak(lines[i])
    decreases |s|
  {
    if s == [] then []
    else
      var k := LineEnd(s);
      if k == |s| then [s]
      else if s[k] == '\r' && k + 1 < |s| && s[k + 1] == '\n' then [s[..k]] + SplitLines(s[k + 2..])
      else [s[..k]] + SplitLines(s[k + 1..])
  }

  /** Each line followed by a newline: what `for l in lines: print l` writes. */
  function Terminated(lines: seq<string>): string {
    if lines == [] then "" else lines[0] + "\n" + Terminated(lines[1..])
  }

  /**
   * The text with every line break written as "\n": a "\r\n" pair and a
   * lone "\r" each become one "\n". Text without carriage returns is
   * left as it is.
   */
  function Newlines(s: string): (r: string)
    ensures '\r' !in r
    ensures '\r' !in s ==> r == s
    decreases |s|
  {
    if s == [] then []
    else if s[0] == '\r' && |s| >= 2 && s[1] == '\n' then "\n" + Newlines(s[2..])
    else if s[0] == '\r' then "\n" + Newlines(s[1..])
    else
      assert s == [s[0]] + s[1..];
      [s[0]] + Newlines(s[1..])
  }

  /** Text without line breaks passes through `Newlines` unchanged. */
  lemma {:induction false} NewlinesAfterPlain(a: string, t: string)
    requires NoLineBreak(a)
    ensures Newlines(a + t) == a + Newlines(t)
    decreases |a|
  {
    if a != [] {
      assert (a + t)[0] == a[0] && (a + t)[1..] == a[1..] + t;
      assert NoLineBreak(a[1..]) by {
        forall i | 0 <= i < |a[1..]| ensures !IsLineBreak(a[1..][i]) { assert a[1..][i] == a[i + 1]; }
      }
      NewlinesAfterPlain(a[1..], t);
      assert a == [a[0]] + a[1..];
      Assoc3([a[0]], a[1..], Newlines(t));
    } else {
      assert a + t == t;
    }
  }

  /**
   * When `s` has a line break, `splitlines` takes the text before it as the
   * first line and goes on after the break (both characters of "\r\n");
   * `Newlines` writes that first line, one "\n", then the rest normalised.
   */
  lemma FirstLine(s: string) returns (rest: string)
    requires s != [] && LineEnd(s) < |s|
    ensures var k := LineEnd(s);
      && |rest| < |s|
      && SplitLines(s) == [s[..k]] + SplitLines(rest)
      && Newlines(s) == s[..k] + "\n" + Newlines(rest)
  {
    var k := LineEnd(s);
    var crlf := s[k] == '\r' && k + 1 < |s| && s[k + 1] == '\n';
    rest := if crlf then s[k + 2..] else s[k + 1..];
    BreakStep(s[k..], crlf);
    assert (if crlf then s[k..][2..] else s[k..][1..]) == rest;
    assert SplitLines(s) == [s[..k]] + SplitLines(rest);
    assert s == s[..k] + s[k..];
    NewlinesAfterPlain(s[..k], s[k..]);
    Assoc3(s[..k], "\n", Newlines(rest));
  }

  /** A text that starts with a line break: `Newlines` writes one "\n" for it. */
  lemma BreakStep(t: string, crlf: bool)
    requires t != [] && IsLineBreak(t[0]) && crlf == (t[0] == '\r' && |t| >= 2 && t[1] == '\n')
    ensures Newlines(t) == "\n" + Newlines(if crlf then t[2..] else t[1..])
  {
  }

  /**
   * Printing each line of `s.splitlines()` gives the text back with its
   * line breaks written as "\n", and a final newline added when it did
   * not end with a line break.
   */
  lemma {:induction false} SplitLinesRoundTrip(s: string)
    ensures var n := Newlines(s);
      Terminated(SplitLines(s)) == if n == [] || n[|n| - 1] == '\n' then n else n + "\n"
    decreases |s|
  {
    if s != [] {
      var k := LineEnd(s);
      if k == |s| {
        assert s[..k] == s;
        NewlinesAfterPlain(s, []);
        assert s + [] == s;
        assert !IsLineBreak(s[|s| - 1]);
      } else {
        var rest := FirstLine(s);
        SplitLinesRoundTrip(rest);
        var n := Newlines(rest);
        Assoc3(s[..k], "\n", Terminated(SplitLines(rest)));
        if n != [] && n[|n| - 1] != '\n' {
          Assoc3(s[..k] + "\n", n, "\n");
        }
      }
    }
  }

  /** Python 2 `a < b` on strings: byte-wise lexicographic, a proper prefix first. */
  predicate Below(a: string, b: string)
    ensures Below(a, b) ==> a != b
    ensures |a| < |b| && a == b[..|a|] ==> Below(a, b)
  {
    if a == [] then b != []
    else b != [] && (a[0] < b[0] || (a[0] == b[0] && Below(a[1..], b[1..])))
  }

  lemma {:induction false} BelowIrreflexive(a: string)
    ensures !Below(a, a)
  {
    if a != [] {
      BelowIrreflexive(a[1..]);
    }
  }

  lemma {:induction false} BelowTransitive(a: string, b: string, c: string)
    requires Below(a, b) && Below(b, c)
    ensures Below(a, c)
  {
    if a != [] && a[0] == b[0] && b[0] == c[0] {
      BelowTransitive(a[1..], b[1..], c[1..]);
    }
  }

  /** Any two strings compare: they are equal or one is below the other. */
  lemma {:induction false} BelowTotal(a: string, b: string)
    ensures a == b || Below(a, b) || Below(b, a)
  {
    if a != [] && b != [] && a[0] == b[0] {
      BelowTotal(a[1..], b[1..]);
      if a[1..] == b[1..] {
        assert a == [a[0]] + a[1..] && b == [b[0]] + b[1..];
      }
    }
  }

  lemma {:induction false} BelowAsymmetric(a: string, b: string)
    requires Below(a, b)
    ensures !Below(b, a)
  {
    if a != [] && a[0] == b[0] {
      BelowAsymmetric(a[1..], b[1..]);
    }
  }
}
