/** Python's `str.split(sep)` for a non-empty separator: scan from the left, cut at
    each leftmost occurrence of `sep`, and keep the (possibly empty) pieces between. */
module PathSplit {

  /** `sep` occurs in `s` starting at index `i`. */
  predicate OccursAt(s: string, sep: string, i: int)
  {
    0 <= i && i + |sep| <= |s| && s[i..i + |sep|] == sep
  }

  ghost predicate Contains(s: string, sep: string)
  {
    exists i :: OccursAt(s, sep, i)
  }

  lemma OccursAtTail(s: string, sep: string, j: int)
    requires |s| >= 1 && j >= 0
    ensures OccursAt(s[1..], sep, j) <==> OccursAt(s, sep, j + 1)
  {
    if 0 <= j && j + |sep| <= |s| - 1 {
      assert s[1..][j..j + |sep|] == s[j + 1..j + 1 + |sep|];
    }
  }

  lemma OccursAtPrefix(s: string, sep: string, n: nat, j: int)
    requires n <= |s|
    requires OccursAt(s[..n], sep, j)
    ensures OccursAt(s, sep, j)
  {
    assert s[..n][j..j + |sep|] == s[j..j + |sep|];
  }

  /** Index of the leftmost occurrence of `sep` in `s`, or -1 when there is none
      (IndexOfIsLeftmost). */
  function IndexOf(s: string, sep: string): (r: int)
    requires sep != ""
    ensures r >= -1
    ensures r >= 0 ==> r + |sep| <= |s|
    decreases |s|
  {
    if |s| < |sep| then -1
    else if s[..|sep|] == sep then 0
    else
      var k := IndexOf(s[1..], sep);
      if k < 0 then -1 else k + 1
  }

  /** IndexOf finds the leftmost occurrence, and -1 exactly when there is none. */
  lemma {:induction false} IndexOfIsLeftmost(s: string, sep: string)
    requires sep != ""
    ensures IndexOf(s, sep) == -1 <==> !Contains(s, sep)
    ensures IndexOf(s, sep) >= 0 ==>
              OccursAt(s, sep, IndexOf(s, sep)) &&
              forall j :: 0 <= j < IndexOf(s, sep) ==> !OccursAt(s, sep, j)
    decreases |s|
  {
    if |s| < |sep| {
      assert forall j :: !OccursAt(s, sep, j);
    } else if s[..|sep|] == sep {
      assert OccursAt(s, sep, 0);
    } else {
      IndexOfIsLeftmost(s[1..], sep);
      var k := IndexOf(s[1..], sep);
      assert !OccursAt(s, sep, 0);
      forall j | j >= 0 ensures OccursAt(s[1..], sep, j) <==> OccursAt(s, sep, j + 1) {
        OccursAtTail(s, sep, j);
      }
      if k < 0 {
        forall j ensures !OccursAt(s, sep, j) {
          if j >= 1 { assert !OccursAt(s[1..], sep, j - 1); }
        }
      } else {
        assert OccursAt(s, sep, k + 1);
        forall j | 0 <= j < k + 1 ensures !OccursAt(s, sep, j) {
          if j >= 1 { assert !OccursAt(s[1..], sep, j - 1); }
        }
      }
    }
  }

  /** Glue `parts` back together with `sep` between neighbours. */
  function Join(parts: seq<string>, sep: string): string
  {
    if |parts| == 0 then ""
    else if |parts| == 1 then parts[0]
    else parts[0] + sep + Join(parts[1..], sep)
  }

  /** `s.split(sep)`: the piece before the leftmost separator, then the pieces of what
      follows it; a string without the separator is a single piece. */
  function Split(s: string, sep: string): (parts: seq<string>)
    requires sep != ""
    ensures |parts| >= 1
    decreases |s|
  {
    var i := IndexOf(s, sep);
    if i < 0 then [s] else [s[..i]] + Split(s[i + |sep|..], sep)
  }

  /** No piece of a split holds the separator. */
  lemma {:induction false} SplitPiecesAreFree(s: string, sep: string)
    requires sep != ""
    ensures forall k :: 0 <= k < |Split(s, sep)| ==> !Contains(Split(s, sep)[k], sep)
    decreases |s|
  {
    var i := IndexOf(s, sep);
    IndexOfIsLeftmost(s, sep);
    if i >= 0 {
      var rest := s[i + |sep|..];
      SplitPiecesAreFree(rest, sep);
      assert !Contains(s[..i], sep) by {
        forall j ensures !OccursAt(s[..i], sep, j) {
          if OccursAt(s[..i], sep, j) { OccursAtPrefix(s, sep, i, j); }
        }
      }
      var parts := Split(s, sep);
      assert parts == [s[..i]] + Split(rest, sep);
      forall k | 1 <= k < |parts| ensures !Contains(parts[k], sep) {
        assert parts[k] == Split(rest, sep)[k - 1];
      }
    }
  }

  /** Joining the pieces of a split with the separator gives the string back. */
  lemma {:induction false} JoinSplit(s: string, sep: string)
    requires sep != ""
    ensures Join(Split(s, sep), sep) == s
    decreases |s|
  {
    var i := IndexOf(s, sep);
    if i >= 0 {
      var rest := s[i + |sep|..];
      JoinSplit(rest, sep);
      assert Split(s, sep) == [s[..i]] + Split(rest, sep);
      JoinCons(s[..i], Split(rest, sep), sep);
      IndexOfIsLeftmost(s, sep);
      CutAt(s, sep, i);
    }
  }

  lemma JoinCons(head: string, rest: seq<string>, sep: string)
    requires |rest| >= 1
    ensures Join([head] + rest, sep) == head + sep + Join(rest, sep)
  {
    assert ([head] + rest)[1..] == rest;
  }

  lemma CutAt(s: string, sep: string, i: int)
    requires OccursAt(s, sep, i)
    ensures s == s[..i] + sep + s[i + |sep|..]
  {
    assert s == s[..i] + s[i..i + |sep|] + s[i + |sep|..];
  }

  // ---- one-character separators (the resolver's default "/") ----

  lemma OccursAtChar(s: string, c: char, i: int)
    ensures OccursAt(s, [c], i) <==> 0 <= i < |s| && s[i] == c
  {
    if 0 <= i < |s| {
      assert s[i..i + 1] == [s[i]];
    }
  }

  lemma ContainsChar(s: string, c: char)
    ensures Contains(s, [c]) <==> c in s
  {
    if c in s {
      var i :| 0 <= i < |s| && s[i] == c;
      OccursAtChar(s, c, i);
    }
    if Contains(s, [c]) {
      var i :| OccursAt(s, [c], i);
      OccursAtChar(s, c, i);
    }
  }

  /** A string without the separator is a single piece. */
  lemma {:induction false} SplitWithoutSeparator(s: string, sep: string)
    requires sep != "" && !Contains(s, sep)
    ensures Split(s, sep) == [s]
  {
    IndexOfIsLeftmost(s, sep);
  }

  /** An occurrence with none before it is the one IndexOf finds. */
  lemma IndexOfIs(s: string, sep: string, i: int)
    requires sep != "" && OccursAt(s, sep, i)
    requires forall j :: 0 <= j < i ==> !OccursAt(s, sep, j)
    ensures IndexOf(s, sep) == i
  {
    assert Contains(s, sep);
    IndexOfIsLeftmost(s, sep);
  }

  /** The leftmost occurrence of a one-character separator in `p + sep + q` is the
      leftmost one in `p` if `p` has one, and the inserted one otherwise. */
  lemma IndexOfCharConcat(p: string, sep: string, q: string)
    requires |sep| == 1
    ensures IndexOf(p + sep + q, sep) == if IndexOf(p, sep) >= 0 then IndexOf(p, sep) else |p|
  {
    var c := sep[0];
    assert sep == [c];
    var s := p + sep + q;
    IndexOfIsLeftmost(p, sep);
    ContainsChar(p, c);
    var i := if c in p then IndexOf(p, sep) else |p|;
    if c in p {
      OccursAtChar(p, c, i);
    }
    OccursAtChar(s, c, i);
    forall j | 0 <= j < i ensures !OccursAt(s, sep, j) {
      OccursAtChar(s, c, j);
      OccursAtChar(p, c, j);
      if !(c in p) {
        assert p[j] in p;
      }
    }
    IndexOfIs(s, sep, i);
  }

  /** One step of the split: the piece before the leftmost separator, then the rest. */
  lemma SplitStep(s: string, sep: string)
    requires sep != "" && IndexOf(s, sep) >= 0
    ensures Split(s, sep) == [s[..IndexOf(s, sep)]] + Split(s[IndexOf(s, sep) + |sep|..], sep)
  {
  }

  lemma SliceOfConcat(a: string, b: string, n: nat)
    requires n <= |a|
    ensures (a + b)[n..] == a[n..] + b
    ensures (a + b)[..n] == a[..n]
  {
  }

  /** Splitting at one inserted one-character separator: the pieces of `p + sep + q`
      are the pieces of `p` followed by the pieces of `q`. */
  lemma {:induction false} SplitConcat(p: string, sep: string, q: string)
    requires |sep| == 1
    ensures Split(p + sep + q, sep) == Split(p, sep) + Split(q, sep)
    decreases |p|
  {
    var i := IndexOf(p, sep);
    if i >= 0 {
      SplitConcat(p[i + 1..], sep, q);
      SplitConcatStep(p, sep, q);
    } else {
      SplitConcatNoSeparator(p, sep, q);
    }
  }

  /** The inductive step of SplitConcat: when `p` holds a separator, both sides cut at
      its leftmost one. */
  lemma SplitConcatStep(p: string, sep: string, q: string)
    requires |sep| == 1 && IndexOf(p, sep) >= 0
    requires Split(p[IndexOf(p, sep) + 1..] + sep + q, sep)
          == Split(p[IndexOf(p, sep) + 1..], sep) + Split(q, sep)
    ensures Split(p + sep + q, sep) == Split(p, sep) + Split(q, sep)
  {
    var i := IndexOf(p, sep);
    var head, tail := [p[..i]], p[i + 1..];
    SplitConcatCut(p, sep, q);
    SplitStep(p, sep);
    AppendAssociative(head, Split(tail, sep), Split(q, sep));
  }

  /** `p + sep + q` is cut first where `p` is. */
  lemma SplitConcatCut(p: string, sep: string, q: string)
    requires |sep| == 1 && IndexOf(p, sep) >= 0
    ensures Split(p + sep + q, sep)
         == [p[..IndexOf(p, sep)]] + Split(p[IndexOf(p, sep) + 1..] + sep + q, sep)
  {
    var s := p + sep + q;
    var i := IndexOf(p, sep);
    assert s == p + (sep + q);
    SliceOfConcat(p, sep + q, i + 1);
    SliceOfConcat(p, sep + q, i);
    AppendAssociative(p[i + 1..], sep, q);
    assert s[i + 1..] == p[i + 1..] + sep + q;
    assert s[..i] == p[..i];
    IndexOfCharConcat(p, sep, q);
    SplitStep(s, sep);
  }

  lemma AppendAssociative<T>(a: seq<T>, b: seq<T>, c: seq<T>)
    ensures a + (b + c) == (a + b) + c
  {
  }

  /** The last step of SplitConcat: `p` holds no separator, so it is the first piece. */
  lemma SplitConcatNoSeparator(p: string, sep: string, q: string)
    requires |sep| == 1 && IndexOf(p, sep) < 0
    ensures Split(p + sep + q, sep) == Split(p, sep) + Split(q, sep)
  {
    var s := p + sep + q;
    assert s == p + (sep + q);
    IndexOfIsLeftmost(p, sep);
    IndexOfCharConcat(p, sep, q);
    SplitStep(s, sep);
    SliceOfConcat(p, sep + q, |p|);
    assert (sep + q)[1..] == q;
    SplitWithoutSeparator(p, sep);
  }

  /** Splitting undoes joining, for a one-character separator and pieces that do not
      hold it. */
  lemma {:induction false} SplitJoin(parts: seq<string>, sep: string)
    requires |sep| == 1 && |parts| >= 1
    requires forall k :: 0 <= k < |parts| ==> !Contains(parts[k], sep)
    ensures Split(Join(parts, sep), sep) == parts
    decreases |parts|
  {
    SplitWithoutSeparator(parts[0], sep);
    if |parts| > 1 {
      SplitConcat(parts[0], sep, Join(parts[1..], sep));
      SplitJoin(parts[1..], sep);
      assert parts == [parts[0]] + parts[1..];
    }
  }

  /** A trailing separator leaves an empty last piece. */
  lemma {:induction false} SplitTrailingSeparator(p: string, sep: string)
    requires |sep| == 1
    ensures Split(p + sep, sep) == Split(p, sep) + [""]
  {
    SplitConcat(p, sep, "");
    assert p + sep + "" == p + sep;
    SplitWithoutSeparator("", sep);
  }

  /** Two separators in a row leave an empty piece between them. */
  lemma {:induction false} SplitDoubledSeparator(p: string, sep: string, q: string)
    requires |sep| == 1
    ensures Split(p + sep + sep + q, sep) == Split(p, sep) + [""] + Split(q, sep)
  {
    SplitConcat(p, sep, sep + q);
    assert p + sep + (sep + q) == p + sep + sep + q;
    SplitConcat("", sep, q);
    assert "" + sep + q == sep + q;
    SplitWithoutSeparator("", sep);
  }
}
