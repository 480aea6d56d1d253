/**
 * The two string built-ins the request handler relies on, modelled on
 * code points: `str.strip()` with no argument, and `str.split(sep)` with a
 * one-character separator. `LastSegment` is an independent, right-to-left
 * definition of the last element of a split, used to characterise it.
 */
module Text {

  /** A code point for which `str.isspace()` holds, so `str.strip()` removes it. */
  predicate IsSpace(c: char) {
    var n := c as int;
    (0x09 <= n <= 0x0D) || (0x1C <= n <= 0x20) || n == 0x85 || n == 0xA0 || n == 0x1680
    || (0x2000 <= n <= 0x200A) || n == 0x2028 || n == 0x2029 || n == 0x202F || n == 0x205F
    || n == 0x3000
  }

  predicate AllSpace(s: string) {
    forall i :: 0 <= i < |s| ==> IsSpace(s[i])
  }

  /** `s` with its leading whitespace removed. */
  function TrimStart(s: string): (r: string)
    ensures |r| <= |s|
    ensures r == [] || !IsSpace(r[0])
    decreases |s|
  {
    if s != [] && IsSpace(s[0]) then TrimStart(s[1..]) else s
  }

  /** `s` with its trailing whitespace removed. */
  function TrimEnd(s: string): (r: string)
    ensures |r| <= |s|
    ensures r == [] || !IsSpace(r[|r| - 1])
    decreases |s|
  {
    if s != [] && IsSpace(s[|s| - 1]) then TrimEnd(s[..|s| - 1]) else s
  }

  /**
   * Python's `str.strip()`: the slice of `s` left after removing leading and
   * trailing whitespace.
   */
  function Strip(s: string): (r: string)
    ensures |r| <= |s|
    ensures r == [] || (!IsSpace(r[0]) && !IsSpace(r[|r| - 1]))
  {
    var t := TrimStart(s);
    TrimEndRemovesSpace(t);
    TrimEnd(t)
  }

  /** Python's `s.split(sep)`: the pieces of `s` between occurrences of `sep`. */
  function Split(s: string, sep: char): (parts: seq<string>)
    ensures |parts| >= 1
    decreases |s|
  {
    if s == [] then [[]]
    else
      var rest := Split(s[1..], sep);
      if s[0] == sep then [[]] + rest
      else [[s[0]] + rest[0]] + rest[1..]
  }

  /** Python's `sep.join(parts)`. */
  function Join(parts: seq<string>, sep: char): string
    decreases |parts|
  {
    if parts == [] then []
    else if |parts| == 1 then parts[0]
    else parts[0] + [sep] + Join(parts[1..], sep)
  }

  /**
   * The part of `s` after its last `sep`, or all of `s` when it holds none:
   * the longest suffix of `s` that does not contain `sep`.
   */
  function LastSegment(s: string, sep: char): (r: string)
    ensures sep !in r
    ensures |r| <= |s|
    decreases |s|
  {
    if s == [] || s[|s| - 1] == sep then []
    else LastSegment(s[..|s| - 1], sep) + [s[|s| - 1]]
  }

  // ---------------------------------------------------------------------------
  // Strip

  /** `TrimStart` removes a prefix of whitespace and keeps the rest. */
  lemma {:induction false} TrimStartRemovesSpace(s: string)
    ensures TrimStart(s) == s[|s| - |TrimStart(s)|..]
    ensures AllSpace(s[..|s| - |TrimStart(s)|])
    decreases |s|
  {
    if s != [] && IsSpace(s[0]) {
      var r := TrimStart(s[1..]);
      TrimStartRemovesSpace(s[1..]);
      assert s[..|s| - |r|] == [s[0]] + s[1..][..|s| - 1 - |r|];
      assert s[1..][|s| - 1 - |r|..] == s[|s| - |r|..];
    }
  }

  /** `TrimEnd` removes a suffix of whitespace and keeps the rest. */
  lemma {:induction false} TrimEndRemovesSpace(s: string)
    ensures TrimEnd(s) == s[..|TrimEnd(s)|]
    ensures AllSpace(s[|TrimEnd(s)|..])
    decreases |s|
  {
    if s != [] && IsSpace(s[|s| - 1]) {
      var r := TrimEnd(s[..|s| - 1]);
      TrimEndRemovesSpace(s[..|s| - 1]);
      assert s[|r|..] == s[..|s| - 1][|r|..] + [s[|s| - 1]];
      assert s[..|s| - 1][..|r|] == s[..|r|];
    }
  }

  lemma {:induction false} TrimStartAll(a: string)
    requires AllSpace(a)
    ensures TrimStart(a) == []
    decreases |a|
  {
    if a != [] {
      TrimStartAll(a[1..]);
    }
  }

  /** A non-space character stops the left trim: what follows it is untouched. */
  lemma {:induction false} TrimStartKeeps(a: string, b: string)
    requires b != [] && !IsSpace(b[0])
    ensures TrimStart(a + b) == TrimStart(a) + b
    decreases |a|
  {
    if a != [] {
      assert (a + b)[1..] == a[1..] + b;
      if IsSpace(a[0]) {
        TrimStartKeeps(a[1..], b);
      }
    }
  }

  /** A non-space character stops the right trim: what precedes it is untouched. */
  lemma {:induction false} TrimEndKeeps(a: string, b: string)
    requires a != [] && !IsSpace(a[|a| - 1])
    ensures TrimEnd(a + b) == a + TrimEnd(b)
    decreases |b|
  {
    if b != [] {
      assert (a + b)[..|a + b| - 1] == a + b[..|b| - 1];
      if IsSpace(b[|b| - 1]) {
        TrimEndKeeps(a, b[..|b| - 1]);
      }
    }
  }

  /**
   * `Strip` is determined by its contract: whenever `s` is whitespace, then
   * `r`, then whitespace, and `r` neither starts nor ends with whitespace,
   * `Strip(s)` is `r`.
   */
  lemma StripUnique(a: string, r: string, b: string)
    requires AllSpace(a) && AllSpace(b)
    requires r == [] || (!IsSpace(r[0]) && !IsSpace(r[|r| - 1]))
    ensures Strip(a + r + b) == r
  {
    if r == [] {
      assert AllSpace(a + r + b) by {
        forall i | 0 <= i < |a + r + b| ensures IsSpace((a + r + b)[i]) {
          if i >= |a| { assert (a + r + b)[i] == b[i - |a|]; }
        }
      }
      TrimStartAll(a + r + b);
    } else {
      assert (r + b)[0] == r[0];
      TrimStartKeeps(a, r + b);
      TrimStartAll(a);
      assert a + r + b == a + (r + b);
      assert TrimStart(a + r + b) == r + b;
      TrimEndKeeps(r, b);
      TrimEndAll(b);
      assert TrimEnd(r + b) == r + [];
      assert r + [] == r;
    }
  }

  lemma {:induction false} TrimEndAll(b: string)
    requires AllSpace(b)
    ensures TrimEnd(b) == []
    decreases |b|
  {
    if b != [] {
      TrimEndAll(b[..|b| - 1]);
    }
  }

  /** Around a non-space character, stripping trims each side independently. */
  lemma StripAround(p: string, c: char, s: string)
    requires !IsSpace(c)
    ensures Strip(p + [c] + s) == TrimStart(p) + [c] + TrimEnd(s)
  {
    var q := TrimStart(p);
    var cs := [c] + s;
    assert p + [c] + s == p + cs;
    TrimStartKeeps(p, cs);
    assert TrimStart(p + [c] + s) == q + cs;
    var qc := q + [c];
    assert q + cs == qc + s;
    assert qc[|qc| - 1] == c;
    TrimEndKeeps(qc, s);
  }

  /** `Strip(s)` is a slice of `s` with only whitespace around it. */
  lemma StripSlice(s: string)
    ensures exists lo :: 0 <= lo <= |s| - |Strip(s)| && Strip(s) == s[lo..lo + |Strip(s)|]
                         && AllSpace(s[..lo]) && AllSpace(s[lo + |Strip(s)|..])
  {
    var t := TrimStart(s);
    var r := TrimEnd(t);
    var lo := |s| - |t|;
    TrimStartRemovesSpace(s);
    TrimEndRemovesSpace(t);
    assert r == s[lo..lo + |r|];
    assert s[lo + |r|..] == t[|r|..];
  }

  /** Stripping twice is stripping once. */
  lemma StripIdempotent(s: string)
    ensures Strip(Strip(s)) == Strip(s)
  {
    StripUnique([], Strip(s), []);
    assert [] + Strip(s) + [] == Strip(s);
  }

  // ---------------------------------------------------------------------------
  // Split and Join

  /** There is one piece exactly when there is no `sep`, and no piece contains `sep`. */
  lemma {:induction false} SplitPieces(s: string, sep: char)
    ensures |Split(s, sep)| == 1 <==> sep !in s
    ensures forall i :: 0 <= i < |Split(s, sep)| ==> sep !in Split(s, sep)[i]
    decreases |s|
  {
    if s != [] {
      SplitPieces(s[1..], sep);
      assert s == [s[0]] + s[1..];
    }
  }

  /** Joining the pieces of a split gives the string back. */
  lemma {:induction false} JoinSplit(s: string, sep: char)
    ensures Join(Split(s, sep), sep) == s
    decreases |s|
  {
    if s != [] {
      var rest := Split(s[1..], sep);
      JoinSplit(s[1..], sep);
      assert s == [s[0]] + s[1..];
      if s[0] != sep && |rest| > 1 {
        assert Split(s, sep)[1..] == rest[1..];
      }
    }
  }

  /** A piece free of `sep` is glued onto the first piece of what follows. */
  lemma {:induction false} SplitPrefix(p: string, t: string, sep: char)
    requires sep !in p
    ensures Split(p + t, sep) == [p + Split(t, sep)[0]] + Split(t, sep)[1..]
    decreases |p|
  {
    if p != [] {
      assert (p + t)[0] == p[0] != sep;
      assert (p + t)[1..] == p[1..] + t;
      SplitPrefix(p[1..], t, sep);
      var rest := Split(p[1..] + t, sep);
      assert rest[1..] == Split(t, sep)[1..];
      assert [p[0]] + rest[0] == p + Split(t, sep)[0];
    } else {
      var parts := Split(t, sep);
      assert p + t == t && p + parts[0] == parts[0];
      assert parts == [parts[0]] + parts[1..];
    }
  }

  /** Splitting a join of `sep`-free pieces gives the pieces back. */
  lemma {:induction false} SplitJoin(parts: seq<string>, sep: char)
    requires |parts| >= 1
    requires forall i :: 0 <= i < |parts| ==> sep !in parts[i]
    ensures Split(Join(parts, sep), sep) == parts
    decreases |parts|
  {
    if |parts| == 1 {
      SplitPrefix(parts[0], [], sep);
      assert parts[0] + [] == parts[0];
    } else {
      var tail := Join(parts[1..], sep);
      SplitJoin(parts[1..], sep);
      assert parts[0] + [sep] + tail == parts[0] + ([sep] + tail);
      SplitPrefix(parts[0], [sep] + tail, sep);
      assert ([sep] + tail)[1..] == tail;
      assert Split([sep] + tail, sep) == [[]] + Split(tail, sep);
      assert parts[0] + [] == parts[0];
      assert parts == [parts[0]] + parts[1..];
    }
  }

  // ---------------------------------------------------------------------------
  // The last piece of a split

  /** `LastSegment(s, sep)` is a suffix of `s` preceded by `sep`, or all of `s`. */
  lemma {:induction false} LastSegmentSuffix(s: string, sep: char)
    ensures var r := LastSegment(s, sep);
      r == s[|s| - |r|..] && (|r| == |s| || s[|s| - |r| - 1] == sep)
    decreases |s|
  {
    if s != [] && s[|s| - 1] != sep {
      var p := s[..|s| - 1];
      LastSegmentSuffix(p, sep);
      var l := LastSegment(p, sep);
      var k := |p| - |l|;
      assert LastSegment(s, sep) == l + [s[|s| - 1]];
      assert p[k..] + [s[|s| - 1]] == s[k..];
      assert k == 0 || s[k - 1] == p[k - 1];
    }
  }

  /** `LastSegment` is the only `sep`-free suffix of `s` that is all of `s` or follows a `sep`. */
  lemma {:induction false} LastSegmentUnique(s: string, sep: char, r: string)
    requires sep !in r
    requires |r| <= |s| && r == s[|s| - |r|..]
    requires |r| == |s| || s[|s| - |r| - 1] == sep
    ensures r == LastSegment(s, sep)
    decreases |s|
  {
    if s != [] && s[|s| - 1] != sep {
      var n := |s| - 1;
      var p := s[..n];
      assert r != [];
      var q := r[..|r| - 1];
      assert r[|r| - 1] == s[n];
      assert q == s[|s| - |r|..n];
      assert p[|p| - |q|..] == s[|s| - |r|..n];
      assert |q| == |p| || p[|p| - |q| - 1] == s[|s| - |r| - 1];
      LastSegmentUnique(p, sep, q);
      assert r == q + [s[n]];
    }
  }

  /** Putting one character in front of `t` changes its last segment only when `t` holds no `sep`. */
  lemma {:induction false} LastSegmentCons(x: char, t: string, sep: char)
    ensures LastSegment([x] + t, sep) == if x != sep && sep !in t then [x] + t else LastSegment(t, sep)
    decreases |t|
  {
    var s := [x] + t;
    if t != [] {
      var n := |t| - 1;
      assert s[|s| - 1] == t[n];
      if t[n] != sep {
        assert s[..|s| - 1] == [x] + t[..n];
        LastSegmentCons(x, t[..n], sep);
        assert t == t[..n] + [t[n]];
        assert ([x] + t[..n]) + [t[n]] == s;
      }
    }
  }

  /** The last element of `Split(s, sep)` is the part of `s` after its last `sep`. */
  lemma {:induction false} SplitLast(s: string, sep: char)
    ensures Split(s, sep)[|Split(s, sep)| - 1] == LastSegment(s, sep)
    decreases |s|
  {
    if s != [] {
      var t := s[1..];
      var rest := Split(t, sep);
      SplitLast(t, sep);
      SplitPieces(t, sep);
      assert s == [s[0]] + t;
      LastSegmentCons(s[0], t, sep);
      if s[0] != sep && sep !in t {
        LastSegmentUnique(t, sep, t);
        assert Split(s, sep) == [[s[0]] + t];
      }
    }
  }

  /** Whatever precedes the last `sep` has no bearing on the last segment. */
  lemma LastSegmentAfter(p: string, sep: char, t: string)
    ensures LastSegment(p + [sep] + t, sep) == LastSegment(t, sep)
  {
    var s := p + [sep] + t;
    var l := LastSegment(t, sep);
    LastSegmentSuffix(t, sep);
    assert l == s[|s| - |l|..];
    if |l| == |t| {
      assert s[|s| - |l| - 1] == sep;
    } else {
      assert s[|s| - |l| - 1] == t[|t| - |l| - 1];
    }
    LastSegmentUnique(s, sep, l);
  }
}
