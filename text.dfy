/** The handful of Python `str` operations the transcript code relies on:
    `sep.join(parts)`, `t in s` and `s.split(sep)`. */
module Text {
  import opened Wrappers

  /** Python's `sep.join(parts)`: the result begins with the first part. */
  function Join(sep: string, parts: seq<string>): (r: string)
    ensures parts != [] ==> |parts[0]| <= |r| && r[..|parts[0]|] == parts[0]
    decreases |parts|
  {
    if |parts| == 0 then ""
    else if |parts| == 1 then parts[0]
    else Join(sep, parts[..|parts| - 1]) + sep + parts[|parts| - 1]
  }

  /** Joining two non-empty lists is joining their joins. */
  lemma {:induction false} JoinAppend(sep: string, a: seq<string>, b: seq<string>)
    requires a != [] && b != []
    ensures Join(sep, a + b) == Join(sep, a) + sep + Join(sep, b)
    decreases |b|
  {
    var ab := a + b;
    if |b| == 1 {
      assert ab[..|ab| - 1] == a;
    } else {
      var b' := b[..|b| - 1];
      assert ab[..|ab| - 1] == a + b';
      JoinAppend(sep, a, b');
      assert Join(sep, b) == Join(sep, b') + sep + b[|b| - 1];
    }
  }

  /** Joining after putting one element in front. */
  lemma JoinCons(sep: string, p: string, rest: seq<string>)
    requires rest != []
    ensures Join(sep, [p] + rest) == p + sep + Join(sep, rest)
  {
    JoinAppend(sep, [p], rest);
  }

  /** `t` occurs in `s` starting at index `i`. */
  predicate OccursAt(s: string, t: string, i: nat)
  {
    i + |t| <= |s| && s[i..i + |t|] == t
  }

  lemma OccursShift(s: string, t: string)
    requires s != []
    ensures forall j: nat {:trigger OccursAt(s[1..], t, j)} ::
      OccursAt(s[1..], t, j) <==> OccursAt(s, t, j + 1)
    ensures forall j: nat {:trigger OccursAt(s, t, j)} ::
      1 <= j ==> (OccursAt(s, t, j) <==> OccursAt(s[1..], t, j - 1))
  {
    forall j: nat
      ensures OccursAt(s[1..], t, j) <==> OccursAt(s, t, j + 1)
    {
      if j + |t| + 1 <= |s| {
        assert s[1..][j..j + |t|] == s[j + 1..j + 1 + |t|];
      }
    }
  }

  /** The first index at which `t` occurs in `s` (Python's `s.find(t)`, with
      `None` for -1). */
  function IndexOf(s: string, t: string): (r: Option<nat>)
    ensures r.Some? ==> OccursAt(s, t, r.value)
    ensures r.Some? ==> forall j: nat :: j < r.value ==> !OccursAt(s, t, j)
    ensures r.None? ==> forall j: nat :: !OccursAt(s, t, j)
    decreases |s|
  {
    if |s| < |t| then None
    else if s[..|t|] == t then Some(0)
    else
      assert !OccursAt(s, t, 0) by { assert s[0..|t|] == s[..|t|]; }
      OccursShift(s, t);
      match IndexOf(s[1..], t)
      case None => None
      case Some(i) => Some(i + 1)
  }

  /** Python's `t in s`. */
  predicate Contains(s: string, t: string)
  {
    IndexOf(s, t).Some?
  }

  /** `t in s` holds exactly when `t` occurs somewhere in `s`. */
  lemma ContainsOccurs(s: string, t: string)
    ensures Contains(s, t) <==> exists i: nat :: OccursAt(s, t, i)
  {
    if Contains(s, t) {
      assert OccursAt(s, t, IndexOf(s, t).value);
    }
  }

  /** A prefix never contains what the whole string does not. */
  lemma PrefixFree(s: string, t: string, k: nat)
    requires k <= |s|
    requires forall j: nat :: j + |t| <= k ==> !OccursAt(s, t, j)
    ensures !Contains(s[..k], t)
  {
    if Contains(s[..k], t) {
      var j := IndexOf(s[..k], t).value;
      assert s[..k][j..j + |t|] == s[j..j + |t|];
      assert OccursAt(s, t, j);
      assert false;
    }
  }

  /** Python's `s.split(sep)` for a non-empty separator: the pieces between
      the non-overlapping occurrences of `sep`, scanning from the left. */
  function Split(s: string, sep: string): (parts: seq<string>)
    requires sep != ""
    ensures |parts| >= 1
    decreases |s|
  {
    match IndexOf(s, sep)
    case None => [s]
    case Some(i) => [s[..i]] + Split(s[i + |sep|..], sep)
  }

  /** A string is what comes before an occurrence, the occurrence, and what
      comes after it. */
  lemma Around(s: string, sep: string, i: nat)
    requires OccursAt(s, sep, i)
    ensures s == s[..i] + sep + s[i + |sep|..]
  {
    assert s == s[..i] + s[i..i + |sep|] + s[i + |sep|..];
  }

  /** One step of `Split`: the piece before the first separator, then the
      split of what follows it. */
  lemma SplitStep(s: string, sep: string)
    requires sep != "" && IndexOf(s, sep).Some?
    ensures var i := IndexOf(s, sep).value;
      && s == s[..i] + sep + s[i + |sep|..]
      && Split(s, sep) == [s[..i]] + Split(s[i + |sep|..], sep)
  {
    Around(s, sep, IndexOf(s, sep).value);
  }

  /** Splitting and joining again gives back the string. */
  lemma {:induction false} SplitJoin(s: string, sep: string)
    requires sep != ""
    ensures Join(sep, Split(s, sep)) == s
    decreases |s|
  {
    if IndexOf(s, sep).Some? {
      var i := IndexOf(s, sep).value;
      var rest := s[i + |sep|..];
      SplitStep(s, sep);
      SplitJoin(rest, sep);
      JoinCons(sep, s[..i], Split(rest, sep));
    }
  }

  /** No piece of a split contains the separator. */
  lemma {:induction false} SplitPiecesFree(s: string, sep: string)
    requires sep != ""
    ensures forall k :: 0 <= k < |Split(s, sep)| ==> !Contains(Split(s, sep)[k], sep)
    decreases |s|
  {
    match IndexOf(s, sep)
    case None =>
      assert Split(s, sep) == [s];
    case Some(i) =>
      var rest := s[i + |sep|..];
      SplitStep(s, sep);
      SplitPiecesFree(rest, sep);
      PrefixFree(s, sep, i);
      var parts := Split(s, sep);
      forall k | 0 <= k < |parts|
        ensures !Contains(parts[k], sep)
      {
        if k > 0 {
          assert parts[k] == Split(rest, sep)[k - 1];
        }
      }
  }

  /** The last piece of a split is a suffix of the string, and unless it is the
      whole string it directly follows an occurrence of the separator. */
  lemma SplitLast(s: string, sep: string)
    requires sep != ""
    ensures var parts := Split(s, sep);
      var last := parts[|parts| - 1];
      |last| <= |s| && s[|s| - |last|..] == last &&
      (|parts| > 1 ==> |last| + |sep| <= |s| && s[|s| - |last| - |sep|..|s| - |last|] == sep)
  {
    var parts := Split(s, sep);
    SplitJoin(s, sep);
    if |parts| > 1 {
      assert s == Join(sep, parts[..|parts| - 1]) + sep + parts[|parts| - 1];
    }
  }

  /** A string without the separator's first character does not contain it. */
  lemma NoFirstNoOccurrence(p: string, sep: string)
    requires sep != [] && sep[0] !in p
    ensures IndexOf(p, sep).None?
  {
  }

  /** In `p + sep + rest`, with `sep`'s first character absent from `p`, the
      first occurrence of `sep` is the one right after `p`. */
  lemma FirstOccurrenceAfter(p: string, sep: string, rest: string)
    requires sep != [] && sep[0] !in p
    ensures IndexOf(p + sep + rest, sep) == Some(|p|)
  {
    var s := p + sep + rest;
    assert s[|p|..|p| + |sep|] == sep;
    assert OccursAt(s, sep, |p|);
  }

  /** Splitting a join gives the parts back when no part contains the
      separator's first character and the separator is that character twice
      (as with a blank-line separator between lines). */
  lemma {:induction false} JoinSplit(sep: string, parts: seq<string>)
    requires |sep| == 2 && sep[0] == sep[1]
    requires parts != []
    requires forall k :: 0 <= k < |parts| ==> sep[0] !in parts[k]
    ensures Split(Join(sep, parts), sep) == parts
    decreases |parts|
  {
    if |parts| == 1 {
      NoFirstNoOccurrence(parts[0], sep);
    } else {
      var rest := parts[1..];
      JoinCons(sep, parts[0], rest);
      assert parts == [parts[0]] + rest;
      var s := Join(sep, parts);
      FirstOccurrenceAfter(parts[0], sep, Join(sep, rest));
      assert s[..|parts[0]|] == parts[0];
      assert s[|parts[0]| + |sep|..] == Join(sep, rest);
      JoinSplit(sep, rest);
    }
  }

  /** The first piece of a split runs up to the first separator, or is the
      whole string when there is none. */
  lemma SplitFirst(s: string, sep: string)
    requires sep != ""
    ensures var p := Split(s, sep)[0];
      && |p| <= |s| && s[..|p|] == p
      && !Contains(p, sep)
      && (|p| == |s| || OccursAt(s, sep, |p|))
  {
    match IndexOf(s, sep)
    case None =>
      assert s[..|s|] == s;
    case Some(i) =>
      PrefixFree(s, sep, i);
  }

  /** A string containing the separator splits into at least two pieces, the
      second being the first piece of what follows the first separator. */
  lemma SplitSecond(s: string, sep: string)
    requires sep != "" && Contains(s, sep)
    ensures var i := IndexOf(s, sep).value;
      |Split(s, sep)| >= 2 && Split(s, sep)[1] == Split(s[i + |sep|..], sep)[0]
  {
    var i := IndexOf(s, sep).value;
    var rest := Split(s[i + |sep|..], sep);
    assert Split(s, sep) == [s[..i]] + rest;
  }

  /** An occurrence makes `t in s` true. */
  lemma OccursContains(s: string, t: string, i: nat)
    requires OccursAt(s, t, i)
    ensures Contains(s, t)
  {
  }

  /** An occurrence of `t + u` is an occurrence of `t`, and it stays one,
      shifted, once text is put in front. */
  lemma OccursShifted(h: string, s: string, t: string, u: string, i: nat)
    requires OccursAt(s, t + u, i)
    ensures OccursAt(h + s, t, |h| + i)
  {
    assert s[i..i + |t|] == s[i..i + |t + u|][..|t|];
    assert (h + s)[|h| + i..|h| + i + |t|] == s[i..i + |t|];
  }

  /** What occurs in `s`, possibly followed by more, is in anything ending
      with `s`. */
  lemma ContainsShifted(h: string, s: string, t: string, u: string, i: nat)
    requires OccursAt(s, t + u, i)
    ensures Contains(h + s, t)
  {
    OccursShifted(h, s, t, u, i);
    OccursContains(h + s, t, |h| + i);
  }

  /** The first piece of the first piece: a prefix of `s` free of both
      separators that ends where `s` ends or at an occurrence of either
      separator. */
  lemma FirstOfFirst(s: string, sep1: string, sep2: string)
    requires sep1 != "" && sep2 != ""
    ensures var id := Split(Split(s, sep1)[0], sep2)[0];
      && |id| <= |s| && s[..|id|] == id
      && !Contains(id, sep1) && !Contains(id, sep2)
      && (|id| == |s| || OccursAt(s, sep1, |id|) || OccursAt(s, sep2, |id|))
  {
    var piece := Split(s, sep1)[0];
    SplitFirst(s, sep1);
    SplitFirst(piece, sep2);
    var id := Split(piece, sep2)[0];
    PrefixKeepsFree(piece, sep1, |id|);
    PrefixSlice(s, piece, 0, |id|);
    assert s[..|id|] == piece[..|id|] by { assert s[..|id|] == s[0..|id|]; }
    if |id| < |piece| {
      assert OccursAt(piece, sep2, |id|);
      PrefixSlice(s, piece, |id|, |id| + |sep2|);
    }
  }

  /** A prefix of a string free of `t` is free of `t`. */
  lemma PrefixKeepsFree(p: string, t: string, k: nat)
    requires k <= |p| && !Contains(p, t)
    ensures !Contains(p[..k], t)
  {
    ContainsOccurs(p, t);
    PrefixFree(p, t, k);
  }

  /** A one-character occurrence is that character. */
  lemma OccursChar(s: string, c: char, k: nat)
    requires OccursAt(s, [c], k)
    ensures s[k] == c
  {
    assert s[k..k + 1][0] == s[k];
  }
  /** The last piece of a split at a one-character separator: a suffix free
      of the separator, which is the whole string or comes right after the
      separator. */
  lemma SplitLastChar(s: string, sep: string)
    requires |sep| == 1
    ensures var parts := Split(s, sep);
      var last := parts[|parts| - 1];
      && |last| <= |s| && s[|s| - |last|..] == last
      && !Contains(last, sep)
      && (|last| == |s| || s[|s| - |last| - 1] == sep[0])
  {
    var parts := Split(s, sep);
    var last := parts[|parts| - 1];
    SplitPiecesFree(s, sep);
    SplitLast(s, sep);
    if |parts| > 1 {
      assert sep == [sep[0]];
      OccursChar(s, sep[0], |s| - |last| - 1);
    } else {
      SplitJoin(s, sep);
      assert Join(sep, parts) == last;
    }
  }


  /** A slice of a prefix is the same slice of the whole string. */
  lemma PrefixSlice(s: string, p: string, a: nat, b: nat)
    requires |p| <= |s| && s[..|p|] == p && a <= b <= |p|
    ensures s[a..b] == p[a..b]
  {
    assert forall k :: a <= k < b ==> s[k] == s[..|p|][k];
  }
}
