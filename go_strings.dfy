/** The parts of Go's `strings` and `unicode` packages that `MaskPreserveEnds`
    uses, over strings seen as sequences of code points. */
module GoStrings {

  /** `unicode.IsSpace`: the Latin-1 white space characters, and above U+00FF
      the characters with Unicode's White_Space property. */
  predicate IsSpace(c: char) {
    if c <= '\U{00FF}' then
      c == '\t' || c == '\n' || c == '\U{000B}' || c == '\U{000C}' || c == '\r' || c == ' '
      || c == '\U{0085}' || c == '\U{00A0}'
    else
      c == '\U{1680}' || ('\U{2000}' <= c <= '\U{200A}') || c == '\U{2028}' || c == '\U{2029}'
      || c == '\U{202F}' || c == '\U{205F}' || c == '\U{3000}'
  }

  /** Every character of `s` is white space. */
  predicate AllSpace(s: string) {
    s == [] || (IsSpace(s[0]) && AllSpace(s[1..]))
  }

  /** `strings.Index(s, string(c))`: the position of the first `c` in `s`, or -1
      when there is none (see `IndexIsFirst`). */
  function Index(s: string, c: char): (r: int)
    ensures -1 <= r < |s|
    ensures r >= 0 ==> s[r] == c
  {
    if s == [] then -1
    else if s[0] == c then 0
    else
      var i := Index(s[1..], c);
      if i < 0 then -1 else i + 1
  }

  /** `Index` finds the first occurrence, and -1 means there is none. */
  lemma {:induction false} IndexIsFirst(s: string, c: char)
    ensures Index(s, c) == -1 <==> c !in s
    ensures Index(s, c) >= 0 ==> c !in s[..Index(s, c)]
  {
    if s != [] && s[0] != c {
      IndexIsFirst(s[1..], c);
      var i := Index(s[1..], c);
      if i >= 0 {
        assert s[..i + 1] == [s[0]] + s[1..][..i];
      } else {
        assert s == [s[0]] + s[1..];
      }
    }
  }

  /** The first `c` of `p + [c] + q` is the one right after `p` when `p` has none. */
  lemma {:induction false} IndexAfter(p: string, c: char, q: string)
    requires c !in p
    ensures Index(p + [c] + q, c) == |p|
  {
    if p != [] {
      assert (p + [c] + q)[1..] == p[1..] + [c] + q;
      IndexAfter(p[1..], c, q);
    }
  }

  /** `strings.Split(s, string(sep))`: the pieces of `s` between the separators, in
      order; there is always at least one piece. */
  function Split(s: string, sep: char): (parts: seq<string>)
    ensures |parts| >= 1
    decreases |s|
  {
    var i := Index(s, sep);
    if i < 0 then [s] else [s[..i]] + Split(s[i + 1..], sep)
  }

  /** There are two pieces or more exactly when `s` holds a separator. */
  lemma SplitCount(s: string, sep: char)
    ensures |Split(s, sep)| >= 2 <==> sep in s
  {
    IndexIsFirst(s, sep);
  }

  /** No piece of a split contains the separator. */
  lemma {:induction false} SplitPieces(s: string, sep: char)
    ensures forall i :: 0 <= i < |Split(s, sep)| ==> sep !in Split(s, sep)[i]
    decreases |s|
  {
    var i := Index(s, sep);
    IndexIsFirst(s, sep);
    if i >= 0 {
      var rest := Split(s[i + 1..], sep);
      SplitPieces(s[i + 1..], sep);
      var parts := Split(s, sep);
      assert parts == [s[..i]] + rest;
      forall j | 0 <= j < |parts|
        ensures sep !in parts[j]
      {
        if j > 0 {
          assert parts[j] == rest[j - 1];
        }
      }
    } else {
      assert Split(s, sep) == [s];
    }
  }

  /** `strings.Join(parts, string(sep))`, the inverse of `Split`. */
  function Join(parts: seq<string>, sep: char): string
    requires |parts| >= 1
  {
    if |parts| == 1 then parts[0] else parts[0] + [sep] + Join(parts[1..], sep)
  }

  /** Joining a first piece onto at least one more puts a separator between them. */
  lemma JoinCons(a: string, rest: seq<string>, sep: char)
    requires |rest| >= 1
    ensures Join([a] + rest, sep) == a + [sep] + Join(rest, sep)
  {
    assert ([a] + rest)[0] == a && ([a] + rest)[1..] == rest;
  }

  /** Joining the pieces of a split gives back the original string. */
  lemma {:induction false} SplitJoin(s: string, sep: char)
    ensures Join(Split(s, sep), sep) == s
    decreases |s|
  {
    var i := Index(s, sep);
    if i >= 0 {
      var rest := Split(s[i + 1..], sep);
      assert Join(rest, sep) == s[i + 1..] by {
        SplitJoin(s[i + 1..], sep);
      }
      assert Join(Split(s, sep), sep) == s[..i] + [sep] + Join(rest, sep) by {
        assert Split(s, sep) == [s[..i]] + rest;
        JoinCons(s[..i], rest, sep);
      }
      assert s == s[..i] + [sep] + s[i + 1..];
    } else {
      assert Split(s, sep) == [s];
    }
  }

  /** A leading separator-free piece is split off as the first piece. */
  lemma SplitFirst(a: string, sep: char, t: string)
    requires sep !in a
    ensures Split(a + [sep] + t, sep) == [a] + Split(t, sep)
  {
    var s := a + [sep] + t;
    IndexAfter(a, sep, t);
    assert s[..|a|] == a;
    assert s[|a| + 1..] == t;
  }

  /** Splitting a join of separator-free pieces gives back the pieces. */
  lemma {:induction false} JoinSplit(parts: seq<string>, sep: char)
    requires |parts| >= 1
    requires forall i :: 0 <= i < |parts| ==> sep !in parts[i]
    ensures Split(Join(parts, sep), sep) == parts
  {
    if |parts| == 1 {
      IndexIsFirst(parts[0], sep);
    } else {
      var tail := Join(parts[1..], sep);
      IndexAfter(parts[0], sep, tail);
      var s := parts[0] + [sep] + tail;
      assert s[..|parts[0]|] == parts[0];
      assert s[|parts[0]| + 1..] == tail;
      JoinSplit(parts[1..], sep);
    }
  }

  /** `strings.TrimLeftFunc(s, unicode.IsSpace)`. */
  function TrimLeft(s: string): string {
    if s != [] && IsSpace(s[0]) then TrimLeft(s[1..]) else s
  }

  /** `strings.TrimRightFunc(s, unicode.IsSpace)`. */
  function TrimRight(s: string): string {
    if s != [] && IsSpace(s[|s| - 1]) then TrimRight(s[..|s| - 1]) else s
  }

  /** `strings.TrimSpace`: `s` without its leading and trailing white space
      (see `TrimSpaceSplits` and `TrimSpacePadded`). */
  function TrimSpace(s: string): string {
    TrimRight(TrimLeft(s))
  }

  /** White space followed by white space is white space. */
  lemma {:induction false} AllSpaceAppend(a: string, b: string)
    requires AllSpace(a) && AllSpace(b)
    ensures AllSpace(a + b)
  {
    if a != [] {
      assert (a + b)[1..] == a[1..] + b;
      AllSpaceAppend(a[1..], b);
    } else {
      assert a + b == b;
    }
  }

  /** `TrimLeft` drops a white space prefix and stops at the first other character. */
  lemma {:induction false} TrimLeftSplits(s: string) returns (pre: string)
    ensures AllSpace(pre) && s == pre + TrimLeft(s)
    ensures TrimLeft(s) == [] || !IsSpace(TrimLeft(s)[0])
  {
    if s != [] && IsSpace(s[0]) {
      var rest := TrimLeftSplits(s[1..]);
      pre := [s[0]] + rest;
      assert pre[1..] == rest;
    } else {
      pre := [];
    }
  }

  /** `TrimRight` drops a white space suffix and stops at the last other character. */
  lemma {:induction false} TrimRightSplits(s: string) returns (post: string)
    ensures AllSpace(post) && s == TrimRight(s) + post
    ensures TrimRight(s) == [] || !IsSpace(TrimRight(s)[|TrimRight(s)| - 1])
  {
    if s != [] && IsSpace(s[|s| - 1]) {
      var rest := TrimRightSplits(s[..|s| - 1]);
      post := rest + [s[|s| - 1]];
      AllSpaceAppend(rest, [s[|s| - 1]]);
    } else {
      post := [];
    }
  }

  /** `TrimSpace(s)` is what is left of `s` between a white space prefix and a
      white space suffix. */
  lemma TrimSpaceSplits(s: string) returns (pre: string, post: string)
    ensures AllSpace(pre) && AllSpace(post) && s == pre + (TrimSpace(s) + post)
  {
    pre := TrimLeftSplits(s);
    post := TrimRightSplits(TrimLeft(s));
  }

  /** `TrimSpace(s)` neither starts nor ends with white space. */
  lemma TrimSpaceEnds(s: string)
    ensures TrimSpace(s) == [] || (!IsSpace(TrimSpace(s)[0]) && !IsSpace(TrimSpace(s)[|TrimSpace(s)| - 1]))
  {
    var t := TrimLeft(s);
    var post := TrimRightSplits(t);
    var r := TrimRight(t);
    var pre := TrimLeftSplits(s);
    if r != [] {
      assert t == r + post;
      assert r[0] == t[0];
    }
  }

  /** `TrimLeft` removes a white space prefix and nothing more. */
  lemma {:induction false} TrimLeftPadded(pre: string, t: string)
    requires AllSpace(pre)
    requires t == [] || !IsSpace(t[0])
    ensures TrimLeft(pre + t) == t
  {
    if pre != [] {
      assert (pre + t)[1..] == pre[1..] + t;
      TrimLeftPadded(pre[1..], t);
    } else {
      assert pre + t == t;
    }
  }

  /** `TrimRight` removes a white space suffix and nothing more. */
  lemma {:induction false} TrimRightPadded(t: string, post: string)
    requires AllSpace(post)
    requires t == [] || !IsSpace(t[|t| - 1])
    ensures TrimRight(t + post) == t
  {
    if post != [] {
      var s := t + post;
      assert s[..|s| - 1] == t + post[..|post| - 1];
      AllSpaceInit(post);
      TrimRightPadded(t, post[..|post| - 1]);
    } else {
      assert t + post == t;
    }
  }

  /** A white space string stays white space without its last character, and
      that character is white space too. */
  lemma {:induction false} AllSpaceInit(s: string)
    requires AllSpace(s) && s != []
    ensures AllSpace(s[..|s| - 1]) && IsSpace(s[|s| - 1])
  {
    if |s| > 1 {
      AllSpaceInit(s[1..]);
      assert s[1..][..|s| - 2] == s[..|s| - 1][1..];
    }
  }

  /** White space alone trims to nothing. */
  lemma TrimSpaceBlank(s: string, pre: string, post: string)
    requires s == pre + post && AllSpace(pre) && AllSpace(post)
    ensures TrimSpace(s) == []
  {
    AllSpaceAppend(pre, post);
    assert s == s + [];
    TrimLeftPadded(s, []);
  }

  /** `TrimSpace` removes exactly the white space padding around a core that
      neither starts nor ends with white space. */
  lemma TrimSpacePadded(pre: string, core: string, post: string)
    requires AllSpace(pre) && AllSpace(post)
    requires core == [] || (!IsSpace(core[0]) && !IsSpace(core[|core| - 1]))
    ensures TrimSpace(pre + core + post) == core
  {
    if core == [] {
      assert pre + core + post == pre + post;
      TrimSpaceBlank(pre + post, pre, post);
    } else {
      assert pre + core + post == pre + (core + post);
      TrimLeftPadded(pre, core + post);
      TrimRightPadded(core, post);
    }
  }

  /** `strings.Repeat(m, n)`: `n` copies of `m`, one after another. */
  function Repeat(m: string, n: nat): string {
    if n == 0 then [] else m + Repeat(m, n - 1)
  }

  /** `n` copies of `m` are `n` times as long as `m`. */
  lemma {:induction false} RepeatLength(m: string, n: nat)
    ensures |Repeat(m, n)| == |m| * n
  {
    if n > 0 {
      RepeatLength(m, n - 1);
    }
  }

  /** Repeating a one-character mask gives `n` copies of that character. */
  lemma {:induction false} RepeatChar(m: string, n: nat)
    requires |m| == 1
    ensures |Repeat(m, n)| == n
    ensures forall i :: 0 <= i < n ==> Repeat(m, n)[i] == m[0]
  {
    if n > 0 {
      RepeatChar(m, n - 1);
    }
  }
}
