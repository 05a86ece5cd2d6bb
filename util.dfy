/** util.go: CleanStringSlice, which turns the pieces of a request path into
    its meaningful segments. */
module Util {
  import opened GoStrings

  /** What one (already trimmed) piece contributes: the piece, unless it is empty. */
  function Keep(p: string): seq<string> {
    if |p| > 0 then [p] else []
  }

  /** A segment worth keeping: non-empty, with no white space at either end. */
  predicate IsSegment(p: string) {
    p != [] && !IsSpace(p[0]) && !IsSpace(p[|p| - 1])
  }

  /** The reference meaning of CleanStringSlice: the trimmed pieces, in order,
      with the empty ones dropped. */
  function Clean(s: seq<string>): (r: seq<string>)
    ensures |r| <= |s|
    ensures forall j :: 0 <= j < |r| ==> IsSegment(r[j])
    decreases |s|
  {
    if s == [] then [] else Clean(s[..|s| - 1]) + Keep(TrimSpace(s[|s| - 1]))
  }

  /** CleanStringSlice: one pass over `s` that trims each piece and appends
      the non-empty ones to the result. */
  method CleanStringSlice(s: seq<string>) returns (x: seq<string>)
    ensures x == Clean(s)
  {
    x := [];
    for i := 0 to |s|
      invariant x == Clean(s[..i])
    {
      var p := TrimSpace(s[i]);
      if |p| > 0 {
        x := x + [p];
      }
      assert s[..i + 1][..i] == s[..i];
    }
    assert s[..|s|] == s;
  }

  /** Every element of the result is the trimmed form of some input piece. */
  lemma {:induction false} CleanFromInputs(s: seq<string>)
    ensures forall j :: 0 <= j < |Clean(s)| ==> exists i :: 0 <= i < |s| && Clean(s)[j] == TrimSpace(s[i])
    decreases |s|
  {
    if s == [] {
      assert Clean(s) == [];
    } else {
      var init, last := s[..|s| - 1], |s| - 1;
      CleanFromInputs(init);
      var r := Clean(s);
      assert r == Clean(init) + Keep(TrimSpace(s[last]));
      forall j | 0 <= j < |r|
        ensures exists i :: 0 <= i < |s| && r[j] == TrimSpace(s[i])
      {
        if j < |Clean(init)| {
          var i :| 0 <= i < |init| && Clean(init)[j] == TrimSpace(init[i]);
          assert r[j] == TrimSpace(s[i]);
        } else {
          assert r[j] == TrimSpace(s[last]);
        }
      }
    }
  }

  /** Cleaning a list with one more piece at the end. */
  lemma CleanSnoc(s: seq<string>, x: string)
    ensures Clean(s + [x]) == Clean(s) + Keep(TrimSpace(x))
  {
    assert (s + [x])[..|s|] == s;
  }

  /** Cleaning distributes over concatenation: the order of the segments is kept. */
  lemma {:induction false} CleanConcat(a: seq<string>, b: seq<string>)
    ensures Clean(a + b) == Clean(a) + Clean(b)
    decreases |b|
  {
    if b == [] {
      assert a + b == a;
    } else {
      var b', last := b[..|b| - 1], b[|b| - 1];
      assert b == b' + [last];
      assert a + b == (a + b') + [last];
      CleanSnoc(a + b', last);
      CleanSnoc(b', last);
      CleanConcat(a, b');
      ConcatAssoc(Clean(a), Clean(b'), Keep(TrimSpace(last)));
    }
  }

  lemma ConcatAssoc<T>(x: seq<T>, y: seq<T>, z: seq<T>)
    ensures (x + y) + z == x + (y + z)
  {
  }

  /** Cleaning a cleaned list changes nothing. */
  lemma {:induction false} CleanIdempotent(s: seq<string>)
    ensures Clean(Clean(s)) == Clean(s)
    decreases |s|
  {
    if s != [] {
      var init := s[..|s| - 1];
      var t := TrimSpace(s[|s| - 1]);
      CleanIdempotent(init);
      CleanConcat(Clean(init), Keep(t));
      if |t| > 0 {
        TrimSpaceIdempotent(s[|s| - 1]);
        assert Clean([t]) == Clean([]) + Keep(TrimSpace(t)) by {
          assert [t][..0] == [];
        }
      }
    }
  }

  /** Pieces made only of white space leave nothing behind. */
  lemma {:induction false} CleanOfBlank(s: seq<string>)
    requires forall i, k :: 0 <= i < |s| && 0 <= k < |s[i]| ==> IsSpace(s[i][k])
    ensures Clean(s) == []
    decreases |s|
  {
    if s != [] {
      CleanOfBlank(s[..|s| - 1]);
      TrimSpaceOfBlank(s[|s| - 1]);
    }
  }

  /** A character that occurs in no input piece occurs in no output segment. */
  lemma {:induction false} CleanKeepsOut(s: seq<string>, c: char)
    requires forall i :: 0 <= i < |s| ==> c !in s[i]
    ensures forall j :: 0 <= j < |Clean(s)| ==> c !in Clean(s)[j]
    decreases |s|
  {
    if s != [] {
      CleanKeepsOut(s[..|s| - 1], c);
      TrimSpaceKeepsOut(s[|s| - 1], c);
    }
  }

  /** A list of pieces that are already non-empty and trimmed is its own cleaning. */
  lemma {:induction false} CleanOfClean(s: seq<string>)
    requires forall i :: 0 <= i < |s| ==> IsSegment(s[i])
    ensures Clean(s) == s
    decreases |s|
  {
    if s != [] {
      var init, last := s[..|s| - 1], s[|s| - 1];
      CleanOfClean(init);
      TrimSpaceOfTrimmed(last);
      assert s == init + [last];
    }
  }
}
