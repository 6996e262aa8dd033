/** String utilities with the semantics of the Python `str` methods the
    integration scripts rely on: `strip()`, `split(sep)`, `sep.join(...)`,
    `startswith(...)` and the prefix slice `s[:n]`. Strings are `seq<char>`. */
module Text {

  datatype Option<+T> = None | Some(value: T)

  /* ---------------------------------------------------------------------- */
  /* Whitespace and strip()                                                 */
  /* ---------------------------------------------------------------------- */

  /** The characters Python's `str.isspace` accepts, which are the ones
      `str.strip()` with no argument removes: the ASCII controls 0x09-0x0D and
      0x1C-0x1F, the space, and the Unicode separators listed below. */
  predicate IsSpace(c: char) {
    var n := c as int;
    || 0x09 <= n <= 0x0D
    || 0x1C <= n <= 0x20
    || n == 0x85 || n == 0xA0 || n == 0x1680
    || 0x2000 <= n <= 0x200A
    || n == 0x2028 || n == 0x2029 || n == 0x202F || n == 0x205F || n == 0x3000
  }

  predicate AllSpace(s: string) {
    forall i :: 0 <= i < |s| ==> IsSpace(s[i])
  }

  /** `s.lstrip()`: the longest suffix of `s` not starting with whitespace,
      everything before it being whitespace. */
  function StripLeft(s: string): (r: string)
    ensures |r| <= |s| && r == s[|s| - |r|..]
    ensures AllSpace(s[..|s| - |r|])
    ensures |r| == 0 || !IsSpace(r[0])
    decreases |s|
  {
    if |s| > 0 && IsSpace(s[0]) then StripLeft(s[1..]) else s
  }

  /** `s.rstrip()`: the longest prefix of `s` not ending in whitespace,
      everything after it being whitespace. */
  function StripRight(s: string): (r: string)
    ensures |r| <= |s| && r == s[..|r|]
    ensures AllSpace(s[|r|..])
    ensures |r| == 0 || !IsSpace(r[|r| - 1])
    decreases |s|
  {
    if |s| > 0 && IsSpace(s[|s| - 1]) then StripRight(s[..|s| - 1]) else s
  }

  /** `s.strip()`. */
  function Strip(s: string): (r: string)
    ensures |r| <= |s|
    ensures |r| == 0 || (!IsSpace(r[0]) && !IsSpace(r[|r| - 1]))
  {
    var l := StripLeft(s);
    var r := StripRight(l);
    assert |r| == 0 || r[0] == l[0];
    r
  }

  /** What strip() promises: the result is a slice `s[i..j]` with only
      whitespace cut on either side, and it neither begins nor ends with
      whitespace. */
  lemma StripIsTrimmedSlice(s: string)
    ensures exists i, j :: 0 <= i <= j <= |s| && Strip(s) == s[i..j]
                           && AllSpace(s[..i]) && AllSpace(s[j..])
    ensures |Strip(s)| == 0 || (!IsSpace(Strip(s)[0]) && !IsSpace(Strip(s)[|Strip(s)| - 1]))
  {
    var l := StripLeft(s);
    var r := StripRight(l);
    var i := |s| - |l|;
    var j := i + |r|;
    assert 0 <= i <= j <= |s| && Strip(s) == s[i..j] && AllSpace(s[..i]) && AllSpace(s[j..]) by {
      assert l == s[i..] && r == l[..|r|];
      assert s[j..] == l[|r|..];
    }
    assert |r| == 0 || (!IsSpace(r[0]) && !IsSpace(r[|r| - 1])) by {
      if |r| > 0 {
        assert r[0] == l[0];
      }
    }
  }

  lemma StripOfAllSpace(s: string)
    requires AllSpace(s)
    ensures Strip(s) == ""
  {
  }

  /** A string with no whitespace at either end is its own strip(). */
  lemma StripOfTrimmed(s: string)
    requires |s| > 0 && !IsSpace(s[0]) && !IsSpace(s[|s| - 1])
    ensures Strip(s) == s
  {
  }

  lemma StripIdempotent(s: string)
    ensures Strip(Strip(s)) == Strip(s)
  {
    StripIsTrimmedSlice(s);
    if |Strip(s)| > 0 {
      StripOfTrimmed(Strip(s));
    }
  }

  /* ---------------------------------------------------------------------- */
  /* Prefixes                                                               */
  /* ---------------------------------------------------------------------- */

  /** `s.startswith(p)`. */
  predicate StartsWith(s: string, p: string) {
    |p| <= |s| && s[..|p|] == p
  }

  /** The slice `s[:n]`, which is all of `s` when `s` is shorter than `n`. */
  function Take(s: string, n: nat): (r: string)
    ensures |r| == if |s| < n then |s| else n
    ensures StartsWith(s, r)
  {
    if |s| <= n then s else s[..n]
  }

  /* ---------------------------------------------------------------------- */
  /* Searching for a separator                                              */
  /* ---------------------------------------------------------------------- */

  predicate OccursAt(s: string, sep: string, k: int) {
    0 <= k && k + |sep| <= |s| && s[k..k + |sep|] == sep
  }

  predicate Contains(s: string, sep: string) {
    exists k :: 0 <= k <= |s| && OccursAt(s, sep, k)
  }

  /** The first occurrence of `sep` in `s` at or after index `i`. */
  function FindFrom(s: string, sep: string, i: nat): (r: Option<nat>)
    requires |sep| > 0 && i <= |s|
    ensures r.Some? ==> i <= r.value && OccursAt(s, sep, r.value)
    ensures r.Some? ==> forall k :: i <= k < r.value ==> !OccursAt(s, sep, k)
    ensures r.None? ==> forall k :: i <= k ==> !OccursAt(s, sep, k)
    decreases |s| - i
  {
    if i + |sep| > |s| then None
    else if s[i..i + |sep|] == sep then Some(i)
    else FindFrom(s, sep, i + 1)
  }

  /** An occurrence inside a prefix is an occurrence in the whole string. */
  lemma OccursInPrefix(s: string, sep: string, n: nat, k: int)
    requires n <= |s| && OccursAt(s[..n], sep, k)
    ensures OccursAt(s, sep, k) && k + |sep| <= n
  {
    assert s[..n][k..k + |sep|] == s[k..k + |sep|];
  }

  /** An occurrence inside a suffix is an occurrence in the whole string. */
  lemma OccursInSuffix(s: string, sep: string, n: nat, k: int)
    requires n <= |s| && OccursAt(s[n..], sep, k)
    ensures OccursAt(s, sep, n + k)
  {
    assert s[n..][k..k + |sep|] == s[n + k..n + k + |sep|];
  }

  /* ---------------------------------------------------------------------- */
  /* split() and join()                                                     */
  /* ---------------------------------------------------------------------- */

  /** `sep.join(xs)`. */
  function Join(xs: seq<string>, sep: string): string {
    if |xs| == 0 then ""
    else if |xs| == 1 then xs[0]
    else xs[0] + sep + Join(xs[1..], sep)
  }

  /** `s.split(sep)` for a non-empty separator: cut `s` at each leftmost
      non-overlapping occurrence of `sep`. Like Python's, it never returns an
      empty list. */
  function Split(s: string, sep: string): (r: seq<string>)
    requires |sep| > 0
    ensures |r| >= 1
    decreases |s|
  {
    match FindFrom(s, sep, 0)
    case None => [s]
    case Some(k) => [s[..k]] + Split(s[k + |sep|..], sep)
  }

  /** Gluing the pieces of a split back together with the separator gives the
      original string. */
  lemma {:induction false} SplitJoinsBack(s: string, sep: string)
    requires |sep| > 0
    ensures Join(Split(s, sep), sep) == s
    decreases |s|
  {
    match FindFrom(s, sep, 0)
    case None =>
    case Some(k) =>
      var rest := s[k + |sep|..];
      var pieces := Split(s, sep);
      assert pieces == [s[..k]] + Split(rest, sep);
      assert pieces[1..] == Split(rest, sep);
      SplitJoinsBack(rest, sep);
      assert Join(pieces, sep) == s[..k] + sep + rest;
      assert s == s[..k] + s[k..k + |sep|] + rest;
  }

  /** No piece of a split contains the separator. */
  lemma {:induction false} SplitPiecesAvoidSeparator(s: string, sep: string)
    requires |sep| > 0
    ensures forall i :: 0 <= i < |Split(s, sep)| ==> !Contains(Split(s, sep)[i], sep)
    decreases |s|
  {
    match FindFrom(s, sep, 0)
    case None =>
    case Some(k) =>
      var head := s[..k];
      SplitPiecesAvoidSeparator(s[k + |sep|..], sep);
      forall j | OccursAt(head, sep, j)
        ensures false
      {
        OccursInPrefix(s, sep, k, j);
      }
  }

  /** A string without the separator is one piece. */
  lemma SplitWithoutSeparator(s: string, sep: string)
    requires |sep| > 0 && !Contains(s, sep)
    ensures Split(s, sep) == [s]
  {
  }

  /** A string none of whose characters is the separator's first character
      does not contain the separator. */
  lemma NoFirstCharNoSeparator(s: string, sep: string)
    requires |sep| > 0 && sep[0] !in s
    ensures !Contains(s, sep)
  {
    forall k | 0 <= k <= |s| && k + |sep| <= |s|
      ensures !OccursAt(s, sep, k)
    {
      assert s[k..k + |sep|][0] == s[k];
    }
  }

  /** For a one-character separator, an occurrence is one matching character. */
  lemma OccursAtChar(s: string, c: char, k: int)
    ensures OccursAt(s, [c], k) <==> 0 <= k < |s| && s[k] == c
  {
    if 0 <= k < |s| {
      assert s[k..k + 1] == [s[k]];
    }
  }

  /** For a one-character separator, containing it is plain membership. */
  lemma ContainsChar(s: string, c: char)
    ensures Contains(s, [c]) <==> c in s
  {
    forall k | 0 <= k <= |s|
      ensures OccursAt(s, [c], k) <==> k < |s| && s[k] == c
    {
      OccursAtChar(s, c, k);
    }
  }

  /** No piece of a split on one character holds that character. */
  lemma SplitPiecesAvoidChar(s: string, c: char)
    ensures forall i :: 0 <= i < |Split(s, [c])| ==> c !in Split(s, [c])[i]
  {
    var pieces := Split(s, [c]);
    SplitPiecesAvoidSeparator(s, [c]);
    forall i | 0 <= i < |pieces|
      ensures c !in pieces[i]
    {
      ContainsChar(pieces[i], c);
    }
  }

  /** Splitting peels off a leading piece that holds no character equal to
      the separator's first one. */
  lemma {:induction false} SplitCons(p: string, sep: string, rest: string)
    requires |sep| > 0 && sep[0] !in p
    ensures Split(p + sep + rest, sep) == [p] + Split(rest, sep)
  {
    var s := p + sep + rest;
    assert OccursAt(s, sep, |p|) by {
      assert s[|p|..|p| + |sep|] == sep;
    }
    forall k | 0 <= k < |p| && k + |sep| <= |s|
      ensures !OccursAt(s, sep, k)
    {
      assert s[k..k + |sep|][0] == p[k];
    }
    assert FindFrom(s, sep, 0) == Some(|p|);
    assert s[..|p|] == p;
    assert s[|p| + |sep|..] == rest;
  }

  /** Splitting the join of pieces that hold no character equal to the
      separator's first one gives the pieces back: split() inverts join(). */
  lemma {:induction false} SplitJoin(xs: seq<string>, sep: string)
    requires |xs| >= 1 && |sep| > 0
    requires forall i :: 0 <= i < |xs| ==> sep[0] !in xs[i]
    ensures Split(Join(xs, sep), sep) == xs
    decreases |xs|
  {
    if |xs| == 1 {
      NoFirstCharNoSeparator(xs[0], sep);
      SplitWithoutSeparator(xs[0], sep);
    } else {
      SplitCons(xs[0], sep, Join(xs[1..], sep));
      SplitJoin(xs[1..], sep);
    }
  }

  /** Splitting such a join followed by more text: all pieces but the last
      come out unchanged, and the last one runs on into the text that
      follows. */
  lemma {:induction false} SplitJoinAppend(xs: seq<string>, sep: string, tail: string)
    requires |xs| >= 1 && |sep| > 0
    requires forall i :: 0 <= i < |xs| ==> sep[0] !in xs[i]
    ensures Split(Join(xs, sep) + tail, sep)
         == xs[..|xs| - 1] + Split(xs[|xs| - 1] + tail, sep)
    decreases |xs|
  {
    if |xs| > 1 {
      var ys := xs[1..];
      var rest := Join(ys, sep);
      var last := xs[|xs| - 1];
      calc {
        Split(Join(xs, sep) + tail, sep);
        { assert Join(xs, sep) + tail == xs[0] + sep + (rest + tail); }
        Split(xs[0] + sep + (rest + tail), sep);
        { SplitCons(xs[0], sep, rest + tail); }
        [xs[0]] + Split(rest + tail, sep);
        { SplitJoinAppend(ys, sep, tail); }
        [xs[0]] + (ys[..|ys| - 1] + Split(ys[|ys| - 1] + tail, sep));
        { assert ys[|ys| - 1] == last;
          assert [xs[0]] + ys[..|ys| - 1] == xs[..|xs| - 1]; }
        xs[..|xs| - 1] + Split(last + tail, sep);
      }
    }
  }

  /** A join begins with its first piece. */
  lemma JoinStartsWithFirst(xs: seq<string>, sep: string)
    requires |xs| >= 1
    ensures StartsWith(Join(xs, sep), xs[0])
  {
  }

  /** A join ends with its last piece. */
  lemma {:induction false} JoinEndsWithLast(xs: seq<string>, sep: string)
    requires |xs| >= 1
    ensures |xs[|xs| - 1]| <= |Join(xs, sep)|
    ensures Join(xs, sep)[|Join(xs, sep)| - |xs[|xs| - 1]|..] == xs[|xs| - 1]
    decreases |xs|
  {
    if |xs| > 1 {
      JoinEndsWithLast(xs[1..], sep);
      var j := Join(xs, sep);
      var last := xs[|xs| - 1];
      var tail := Join(xs[1..], sep);
      assert j == (xs[0] + sep) + tail;
      assert j[|j| - |last|..] == tail[|tail| - |last|..];
    }
  }

  /** A character missing from every piece and from the separator is missing
      from the join. */
  lemma {:induction false} JoinAvoidsChar(xs: seq<string>, sep: string, c: char)
    requires c !in sep
    requires forall i :: 0 <= i < |xs| ==> c !in xs[i]
    ensures c !in Join(xs, sep)
    decreases |xs|
  {
    if |xs| > 1 {
      JoinAvoidsChar(xs[1..], sep, c);
      assert Join(xs, sep) == xs[0] + sep + Join(xs[1..], sep);
    }
  }
}
