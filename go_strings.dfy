/** The two Go standard-library string functions the dispatchers rely on:
    `strings.TrimSpace` (over ASCII white space, one character per byte) and
    `strings.Split` with the one-space separator, together with `strings.Join`,
    which undoes it. The functions carry no contracts beyond what their own
    definitions need; what they promise is stated by the lemmas below them. */
module GoStrings {

  /** The ASCII characters Go's `unicode.IsSpace` accepts:
      tab, line feed, vertical tab, form feed, carriage return and space. */
  predicate IsSpace(c: char) {
    c == '\t' || c == '\n' || c == '\U{000B}' || c == '\U{000C}' || c == '\r' || c == ' '
  }

  predicate AllSpace(s: string) {
    forall i :: 0 <= i < |s| ==> IsSpace(s[i])
  }

  /** Neither end of `s` is white space. */
  predicate IsTrimmed(s: string) {
    s == [] || (!IsSpace(s[0]) && !IsSpace(s[|s| - 1]))
  }

  /** `s` without its leading white space. */
  function TrimLeft(s: string): string
    decreases |s|
  {
    if |s| > 0 && IsSpace(s[0]) then TrimLeft(s[1..]) else s
  }

  /** `s` without its trailing white space. */
  function TrimRight(s: string): string
    decreases |s|
  {
    if |s| > 0 && IsSpace(s[|s| - 1]) then TrimRight(s[..|s| - 1]) else s
  }

  /** strings.TrimSpace: the leading white space is cut first, then the trailing. */
  function TrimSpace(s: string): string {
    TrimRight(TrimLeft(s))
  }

  /** TrimLeft cuts a run of white space off the front and stops at the first other character. */
  lemma {:induction false} TrimLeftCuts(s: string) returns (pre: string)
    ensures s == pre + TrimLeft(s) && AllSpace(pre)
    ensures TrimLeft(s) == [] || !IsSpace(TrimLeft(s)[0])
    decreases |s|
  {
    if |s| > 0 && IsSpace(s[0]) {
      var p := TrimLeftCuts(s[1..]);
      pre := [s[0]] + p;
      assert s == [s[0]] + s[1..];
    } else {
      pre := [];
    }
  }

  /** TrimRight cuts a run of white space off the back and stops at the last other character. */
  lemma {:induction false} TrimRightCuts(s: string) returns (post: string)
    ensures s == TrimRight(s) + post && AllSpace(post)
    ensures TrimRight(s) == [] || !IsSpace(TrimRight(s)[|TrimRight(s)| - 1])
    decreases |s|
  {
    if |s| > 0 && IsSpace(s[|s| - 1]) {
      var p := TrimRightCuts(s[..|s| - 1]);
      post := p + [s[|s| - 1]];
      assert s == s[..|s| - 1] + [s[|s| - 1]];
    } else {
      post := [];
    }
  }

  /** The trimmed text has no white space at either end, and it is what is left of `s`
      once white space is cut off both ends. */
  lemma TrimSpaceCutsEnds(s: string) returns (pre: string, post: string)
    ensures s == pre + TrimSpace(s) + post
    ensures AllSpace(pre) && AllSpace(post)
    ensures IsTrimmed(TrimSpace(s))
  {
    var l := TrimLeft(s);
    pre := TrimLeftCuts(s);
    post := TrimRightCuts(l);
    var r := TrimRight(l);
    if r != [] {
      assert r[0] == l[0];
    }
  }

  lemma {:induction false} TrimLeftSkips(pre: string, rest: string)
    requires AllSpace(pre)
    requires rest == [] || !IsSpace(rest[0])
    ensures TrimLeft(pre + rest) == rest
    decreases |pre|
  {
    if pre != [] {
      assert (pre + rest)[0] == pre[0];
      assert (pre + rest)[1..] == pre[1..] + rest;
      TrimLeftSkips(pre[1..], rest);
    } else {
      assert pre + rest == rest;
    }
  }

  lemma {:induction false} TrimRightSkips(rest: string, post: string)
    requires AllSpace(post)
    requires rest == [] || !IsSpace(rest[|rest| - 1])
    ensures TrimRight(rest + post) == rest
    decreases |post|
  {
    if post != [] {
      var s := rest + post;
      assert s[|s| - 1] == post[|post| - 1];
      assert s[..|s| - 1] == rest + post[..|post| - 1];
      TrimRightSkips(rest, post[..|post| - 1]);
    } else {
      assert rest + post == rest;
    }
  }

  /** TrimSpace is determined by its promises: whatever white space surrounds a
      trimmed text, TrimSpace gives back exactly that text. */
  lemma TrimSpaceOf(pre: string, m: string, post: string)
    requires AllSpace(pre) && AllSpace(post) && IsTrimmed(m)
    ensures TrimSpace(pre + m + post) == m
  {
    if m == [] {
      assert pre + m + post == pre + post + [];
      TrimLeftSkips(pre + post, []);
      TrimRightSkips([], []);
    } else {
      assert pre + m + post == pre + (m + post);
      TrimLeftSkips(pre, m + post);
      TrimRightSkips(m, post);
    }
  }

  /** Trimming twice is trimming once. */
  lemma TrimSpaceIdempotent(s: string)
    ensures TrimSpace(TrimSpace(s)) == TrimSpace(s)
  {
    var r := TrimSpace(s);
    var _, _ := TrimSpaceCutsEnds(s);
    TrimSpaceOf([], r, []);
    assert [] + r + [] == r;
  }

  /** A trimmed text is left as it is. */
  lemma TrimSpaceKeepsTrimmed(s: string)
    requires IsTrimmed(s)
    ensures TrimSpace(s) == s
  {
    TrimSpaceOf([], s, []);
    assert [] + s + [] == s;
  }

  /** A text made only of white space trims to the empty text. */
  lemma BlankTrimsToEmpty(s: string)
    requires AllSpace(s)
    ensures TrimSpace(s) == ""
  {
    TrimSpaceOf(s, [], []);
    assert s + [] + [] == s;
  }

  function Occurrences(s: string, c: char): nat
    decreases |s|
  {
    if s == [] then 0 else (if s[0] == c then 1 else 0) + Occurrences(s[1..], c)
  }

  lemma {:induction false} OccurrencesAppend(a: string, b: string, c: char)
    ensures Occurrences(a + b, c) == Occurrences(a, c) + Occurrences(b, c)
    decreases |a|
  {
    if a != [] {
      assert (a + b)[0] == a[0] && (a + b)[1..] == a[1..] + b;
      OccurrencesAppend(a[1..], b, c);
    } else {
      assert a + b == b;
    }
  }

  lemma {:induction false} OccurrencesAbsent(s: string, c: char)
    requires c !in s
    ensures Occurrences(s, c) == 0
    decreases |s|
  {
    if s != [] {
      assert forall x <- s[1..] :: x in s;
      OccurrencesAbsent(s[1..], c);
    }
  }

  /** The position of the first `c` in `s`. */
  function IndexOf(s: string, c: char): (k: nat)
    requires c in s
    ensures k < |s| && s[k] == c
    decreases |s|
  {
    if s[0] == c then 0 else 1 + IndexOf(s[1..], c)
  }

  /** No `c` comes before IndexOf(s, c). */
  lemma {:induction false} IndexOfFirst(s: string, c: char)
    requires c in s
    ensures c !in s[..IndexOf(s, c)]
    decreases |s|
  {
    if s[0] != c {
      IndexOfFirst(s[1..], c);
      assert s[..IndexOf(s, c)] == [s[0]] + s[1..][..IndexOf(s[1..], c)];
    }
  }

  /** strings.Join(parts, " "). */
  function Join(parts: seq<string>): string
    requires |parts| > 0
  {
    if |parts| == 1 then parts[0] else parts[0] + " " + Join(parts[1..])
  }

  /** strings.Split(s, " "): the pieces of `s` between single spaces. Two adjacent
      spaces give an empty piece, and the empty text gives the one piece "". */
  function Split(s: string): (parts: seq<string>)
    ensures |parts| > 0
    decreases |s|
  {
    if ' ' in s then
      var k := IndexOf(s, ' ');
      [s[..k]] + Split(s[k + 1..])
    else
      [s]
  }

  /** Split gives one piece more than there are spaces, no piece holds a space, and
      joining the pieces back with spaces restores the text. */
  lemma {:induction false} SplitPieces(s: string)
    ensures |Split(s)| == Occurrences(s, ' ') + 1
    ensures forall p <- Split(s) :: ' ' !in p
    ensures Join(Split(s)) == s
    decreases |s|
  {
    if ' ' in s {
      var k := IndexOf(s, ' ');
      var rest := Split(s[k + 1..]);
      SplitPieces(s[k + 1..]);
      IndexOfFirst(s, ' ');
      assert s == s[..k] + [' '] + s[k + 1..];
      OccurrencesAppend(s[..k] + [' '], s[k + 1..], ' ');
      OccurrencesAppend(s[..k], [' '], ' ');
      OccurrencesAbsent(s[..k], ' ');
      assert Split(s) == [s[..k]] + rest;
      assert Split(s)[1..] == rest;
    } else {
      OccurrencesAbsent(s, ' ');
    }
  }

  /** Split undoes Join when no piece holds a space. */
  lemma {:induction false} SplitJoin(parts: seq<string>)
    requires |parts| > 0
    requires forall p <- parts :: ' ' !in p
    ensures Split(Join(parts)) == parts
    decreases |parts|
  {
    if |parts| > 1 {
      var p, j := parts[0], Join(parts[1..]);
      var s := p + " " + j;
      assert s[|p|] == ' ';
      var k := IndexOf(s, ' ');
      IndexOfFirst(s, ' ');
      assert s[..|p|] == p;
      assert ' ' !in p by { assert parts[0] in parts; }
      forall i | 0 <= i < |p| ensures s[i] != ' ' {
        assert s[i] == p[i] && p[i] in p;
      }
      forall i | 0 <= i < k ensures s[i] != ' ' {
        assert s[..k][i] == s[i];
      }
      assert k == |p|;
      assert s[..k] == p && s[k + 1..] == j;
      assert forall q <- parts[1..] :: q in parts;
      SplitJoin(parts[1..]);
      assert parts == [p] + parts[1..];
    }
  }
}
