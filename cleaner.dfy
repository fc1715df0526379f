/** `TranscriptProcessor.clean_text`: drop `[...]` and `(...)` annotations,
    collapse whitespace runs to one space, trim both ends. The three regular
    expressions are written out as recursive functions over the string. */
module Cleaner {
  import opened Wrappers
  import opened Text

  /** The characters Python treats as whitespace in `str` (`str.isspace`, and
      the `\s` class of `re` for `str` patterns). */
  predicate IsSpace(c: char)
  {
    var n := c as int;
    || (9 <= n <= 13) || (28 <= n <= 32) || n == 0x85 || n == 0xA0 || n == 0x1680
    || (0x2000 <= n <= 0x200A) || n == 0x2028 || n == 0x2029 || n == 0x202F
    || n == 0x205F || n == 0x3000
  }

  /** ASCII whitespace is whitespace; digits, letters and the bracket
      characters are not. */
  lemma SpaceKinds(c: char)
    ensures c == ' ' || c == '\t' || c == '\n' || c == '\r' ==> IsSpace(c)
    ensures IsSpace(c) ==> c !in "[]()" && !('0' <= c <= '9') && !('a' <= c <= 'z') && !('A' <= c <= 'Z')
  {
  }

  /** Where `.*?` followed by `close` first matches at the start of `s`: the
      index of the first `close` that comes before any newline (`.` does not
      match a newline). */
  function FirstClose(s: string, close: char): (r: Option<nat>)
    requires close != '\n'
    ensures r.Some? ==> r.value < |s| && s[r.value] == close && '\n' !in s[..r.value]
    ensures r.Some? ==> close !in s[..r.value]
    ensures r.None? ==> forall k :: 0 <= k < |s| && s[k] == close ==> '\n' in s[..k]
    decreases |s|
  {
    if s == [] then None
    else if s[0] == '\n' then
      assert forall k :: 0 < k <= |s| ==> s[..k][0] == '\n';
      None
    else if s[0] == close then Some(0)
    else
      match FirstClose(s[1..], close)
      case None =>
        assert forall k :: 0 < k <= |s| ==> s[..k] == [s[0]] + s[1..][..k - 1];
        None
      case Some(k) =>
        assert s[..k + 1] == [s[0]] + s[1..][..k];
        Some(k + 1)
  }

  /** `re.sub(r"\[.*?\]", "", s)` when `open`, `close` are `[`, `]`, and the
      same with `(`, `)`: scanning from the left, an `open` followed on the same
      line by a `close` is removed up to and including the first such `close`;
      any other character is kept. Nothing is added. */
  function RemoveSpans(s: string, open: char, close: char): (r: string)
    requires close != '\n'
    ensures |r| <= |s|
    decreases |s|
  {
    if s == [] then []
    else if s[0] == open && FirstClose(s[1..], close).Some? then
      RemoveSpans(s[FirstClose(s[1..], close).value + 2..], open, close)
    else [s[0]] + RemoveSpans(s[1..], open, close)
  }

  /** No `open` is followed, on its line, by a `close`: nothing left to remove. */
  ghost predicate SpanFree(s: string, open: char, close: char)
    requires close != '\n'
  {
    forall k :: 0 <= k < |s| && s[k] == open ==> FirstClose(s[k + 1..], close).None?
  }

  /** Python's `s.lstrip()`. */
  function TrimStart(s: string): (r: string)
    ensures |r| <= |s| && r == s[|s| - |r|..]
    ensures r != [] ==> !IsSpace(r[0])
    ensures s != [] && IsSpace(s[0]) ==> |r| < |s|
    ensures forall k :: 0 <= k < |s| - |r| ==> IsSpace(s[k])
    decreases |s|
  {
    if s != [] && IsSpace(s[0]) then
      var r := TrimStart(s[1..]);
      assert s[1..][|s| - 1 - |r|..] == s[|s| - |r|..];
      assert forall k :: 1 <= k < |s| - |r| ==> s[1..][k - 1] == s[k];
      r
    else s
  }

  /** Python's `s.rstrip()`. */
  function TrimEnd(s: string): (r: string)
    ensures |r| <= |s| && r == s[..|r|]
    ensures r != [] ==> !IsSpace(r[|r| - 1])
    ensures forall k :: |r| <= k < |s| ==> IsSpace(s[k])
    decreases |s|
  {
    if s != [] && IsSpace(s[|s| - 1]) then TrimEnd(s[..|s| - 1]) else s
  }

  /** Python's `s.strip()`: no whitespace is left at either end; `StripSlice`
      shows the result is the slice of `s` between its leading and its
      trailing whitespace. */
  function Strip(s: string): (r: string)
    ensures |r| <= |s|
    ensures r != [] ==> !IsSpace(r[0]) && !IsSpace(r[|r| - 1])
  {
    TrimEnd(TrimStart(s))
  }

  /** `strip` deletes only leading and trailing whitespace: what it keeps is
      one contiguous slice of `s`, with whitespace alone before and after
      it. */
  lemma StripSlice(s: string)
    ensures var r := Strip(s);
      exists i :: (0 <= i <= |s| - |r| && r == s[i..][..|r|]
        && (forall k :: 0 <= k < i ==> IsSpace(s[k]))
        && (forall k :: i + |r| <= k < |s| ==> IsSpace(s[k])))
  {
    SliceBetween(s, TrimStart(s), Strip(s));
  }

  /** What is left after dropping leading whitespace (`t`) and then trailing
      whitespace (`r`) is a slice of `s` with whitespace only around it. */
  lemma SliceBetween(s: string, t: string, r: string)
    requires |t| <= |s| && t == s[|s| - |t|..] && (t != [] ==> !IsSpace(t[0]))
    requires forall k :: 0 <= k < |s| - |t| ==> IsSpace(s[k])
    requires |r| <= |t| && r == t[..|r|] && (r != [] ==> !IsSpace(r[|r| - 1]))
    requires forall k :: |r| <= k < |t| ==> IsSpace(t[k])
    ensures |r| <= |s|
    ensures r != [] ==> !IsSpace(r[0]) && !IsSpace(r[|r| - 1])
    ensures exists i :: (0 <= i <= |s| - |r| && r == s[i..][..|r|]
      && (forall k :: 0 <= k < i ==> IsSpace(s[k]))
      && (forall k :: i + |r| <= k < |s| ==> IsSpace(s[k])))
  {
    var i := |s| - |t|;
    assert r != [] ==> r[0] == t[0];
    assert forall k :: i + |r| <= k < |s| ==> t[k - i] == s[k];
    assert 0 <= i <= |s| - |r| && r == s[i..][..|r|]
      && (forall k :: 0 <= k < i ==> IsSpace(s[k]))
      && (forall k :: i + |r| <= k < |s| ==> IsSpace(s[k]));
  }

  /** `re.sub(r"\s+", " ", s)`: every maximal run of whitespace becomes one
      space. */
  function Collapse(s: string): string
    decreases |s|
  {
    if s == [] then []
    else if IsSpace(s[0]) then " " + Collapse(TrimStart(s))
    else [s[0]] + Collapse(s[1..])
  }

  /** `TranscriptProcessor.clean_text`: the result has no whitespace at
      either end, its only whitespace is single spaces between other
      characters, and its other characters are exactly those left once the
      annotations are removed, in order. */
  function CleanText(text: string): (r: string)
    ensures r != [] ==> !IsSpace(r[0]) && !IsSpace(r[|r| - 1])
    ensures Collapsed(r)
    ensures NonSpace(r) == NonSpace(RemoveSpans(RemoveSpans(text, '[', ']'), '(', ')'))
  {
    var bare := RemoveSpans(RemoveSpans(text, '[', ']'), '(', ')');
    var c := Collapse(bare);
    Tidy(bare, c);
    Strip(c)
  }

  /** Collapsing and then stripping leaves no whitespace at the ends, only
      single spaces inside, and the other characters as they were. */
  lemma Tidy(s: string, c: string)
    requires c == Collapse(s)
    ensures var r := Strip(c);
      && (r != [] ==> !IsSpace(r[0]) && !IsSpace(r[|r| - 1]))
      && Collapsed(r)
      && NonSpace(r) == NonSpace(s)
  {
    CollapseIsCollapsed(s);
    NonSpaceCollapse(s);
    StripKeeps(c);
  }

  /** Whitespace-free characters of `s`, in order. */
  function NonSpace(s: string): string
    decreases |s|
  {
    if s == [] then [] else (if IsSpace(s[0]) then [] else [s[0]]) + NonSpace(s[1..])
  }

  /** Every whitespace character is a plain space and no two are adjacent. */
  ghost predicate Collapsed(s: string)
  {
    && (forall k :: 0 <= k < |s| && IsSpace(s[k]) ==> s[k] == ' ')
    && (forall k :: 0 <= k < |s| - 1 ==> !(IsSpace(s[k]) && IsSpace(s[k + 1])))
  }

  /** A string with no `close` before its first newline keeps that property
      once spans are removed from it. */
  lemma {:induction false} NoCloseSurvives(t: string, open: char, close: char)
    requires close != '\n' && open != close && open != '\n'
    requires FirstClose(t, close).None?
    ensures FirstClose(RemoveSpans(t, open, close), close).None?
    decreases |t|
  {
    if t != [] && t[0] != '\n' {
      NoCloseSurvives(t[1..], open, close);
      var r := RemoveSpans(t, open, close);
      assert r == [t[0]] + RemoveSpans(t[1..], open, close);
      assert r[1..] == RemoveSpans(t[1..], open, close);
    }
  }

  /** Once the spans are removed, none is left: removal is complete. */
  lemma {:induction false} RemoveSpansSpanFree(s: string, open: char, close: char)
    requires close != '\n' && open != close && open != '\n'
    ensures SpanFree(RemoveSpans(s, open, close), open, close)
    decreases |s|
  {
    if s == [] {
    } else if s[0] == open && FirstClose(s[1..], close).Some? {
      RemoveSpansSpanFree(s[FirstClose(s[1..], close).value + 2..], open, close);
    } else {
      var r := RemoveSpans(s[1..], open, close);
      RemoveSpansSpanFree(s[1..], open, close);
      var out := [s[0]] + r;
      forall k | 0 <= k < |out| && out[k] == open
        ensures FirstClose(out[k + 1..], close).None?
      {
        if k == 0 {
          NoCloseSurvives(s[1..], open, close);
          assert out[1..] == r;
        } else {
          assert out[k + 1..] == r[k..];
          assert r[k - 1] == open;
        }
      }
    }
  }

  /** A string with nothing to remove is left as it is. */
  lemma {:induction false} SpanFreeUnchanged(s: string, open: char, close: char)
    requires close != '\n'
    requires SpanFree(s, open, close)
    ensures RemoveSpans(s, open, close) == s
    decreases |s|
  {
    if s != [] {
      forall k | 0 <= k < |s[1..]| && s[1..][k] == open
        ensures FirstClose(s[1..][k + 1..], close).None?
      {
        assert s[1..][k + 1..] == s[k + 2..];
        assert s[k + 1] == open;
      }
      SpanFreeUnchanged(s[1..], open, close);
    }
  }

  /** Removing annotations twice is removing them once. */
  lemma RemoveSpansIdempotent(s: string, open: char, close: char)
    requires close != '\n' && open != close && open != '\n'
    ensures RemoveSpans(RemoveSpans(s, open, close), open, close) == RemoveSpans(s, open, close)
  {
    RemoveSpansSpanFree(s, open, close);
    SpanFreeUnchanged(RemoveSpans(s, open, close), open, close);
  }

  /** Text before which no `open` occurs passes through untouched. */
  lemma {:induction false} RemoveSpansPlain(a: string, b: string, open: char, close: char)
    requires close != '\n' && open !in a
    ensures RemoveSpans(a + b, open, close) == a + RemoveSpans(b, open, close)
    decreases |a|
  {
    if a != [] {
      assert (a + b)[1..] == a[1..] + b;
      RemoveSpansPlain(a[1..], b, open, close);
    } else {
      assert a + b == b;
    }
  }

  /** The first `close` of `m + [close] + rest` is the one after `m`. */
  lemma {:induction false} FirstCloseAt(m: string, close: char, rest: string)
    requires close != '\n' && close !in m && '\n' !in m
    ensures FirstClose(m + [close] + rest, close) == Some(|m|)
    decreases |m|
  {
    if m != [] {
      assert (m + [close] + rest)[1..] == m[1..] + [close] + rest;
      FirstCloseAt(m[1..], close, rest);
    }
  }

  /** A note opening the text and closed on the same line disappears with its brackets. */
  lemma RemoveSpansSpan(m: string, rest: string, open: char, close: char)
    requires close != '\n' && close !in m && '\n' !in m
    ensures RemoveSpans([open] + m + [close] + rest, open, close) == RemoveSpans(rest, open, close)
  {
    var s := [open] + m + [close] + rest;
    assert s[1..] == m + [close] + rest;
    FirstCloseAt(m, close, rest);
    assert s[|m| + 2..] == rest;
  }

  /** Text with no `open` at all is left as it is. */
  lemma SpansAbsent(s: string, open: char, close: char)
    requires close != '\n' && open !in s
    ensures RemoveSpans(s, open, close) == s
  {
    RemoveSpansPlain(s, [], open, close);
    assert s + [] == s;
  }

  /** One note between text free of `open` is removed and the text around it
      is kept, e.g. `hello [laughs] world` becomes `hello  world`. */
  lemma RemoveOneSpan(pre: string, m: string, tail: string, open: char, close: char)
    requires close != '\n' && open !in pre && open !in tail
    requires close !in m && '\n' !in m
    ensures RemoveSpans(pre + ([open] + m + [close] + tail), open, close) == pre + tail
  {
    RemoveSpansPlain(pre, [open] + m + [close] + tail, open, close);
    RemoveSpansSpan(m, tail, open, close);
    SpansAbsent(tail, open, close);
  }

  /** The number of times `c` occurs in `s`. */
  function Count(s: string, c: char): nat
    decreases |s|
  {
    if s == [] then 0 else (if s[0] == c then 1 else 0) + Count(s[1..], c)
  }

  lemma {:induction false} CountAppend(a: string, b: string, c: char)
    ensures Count(a + b, c) == Count(a, c) + Count(b, c)
    decreases |a|
  {
    if a != [] {
      assert (a + b)[1..] == a[1..] + b;
      CountAppend(a[1..], b, c);
    } else {
      assert a + b == b;
    }
  }

  lemma {:induction false} CountAbsent(s: string, c: char)
    requires c !in s
    ensures Count(s, c) == 0
    decreases |s|
  {
    if s != [] {
      CountAbsent(s[1..], c);
    }
  }

  /** A removed span holds no newline, so the newlines are those after it. */
  lemma SpanHasNoNewline(s: string, n: nat)
    requires 2 <= n <= |s| && s[0] != '\n' && s[n - 1] != '\n' && '\n' !in s[1..][..n - 2]
    ensures Count(s, '\n') == Count(s[n..], '\n')
  {
    assert s == s[..n] + s[n..];
    assert s[..n] == [s[0]] + s[1..][..n - 2] + [s[n - 1]];
    CountAbsent(s[..n], '\n');
    CountAppend(s[..n], s[n..], '\n');
  }

  /** A removed span never reaches past the end of its line: every newline
      of the input is still there. */
  lemma {:induction false} RemoveSpansKeepsNewlines(s: string, open: char, close: char)
    requires close != '\n' && open != '\n'
    ensures Count(RemoveSpans(s, open, close), '\n') == Count(s, '\n')
    decreases |s|
  {
    if s == [] {
    } else if s[0] == open && FirstClose(s[1..], close).Some? {
      var e := FirstClose(s[1..], close).value;
      RemoveSpansKeepsNewlines(s[e + 2..], open, close);
      SpanHasNoNewline(s, e + 2);
    } else {
      RemoveSpansKeepsNewlines(s[1..], open, close);
      var out := [s[0]] + RemoveSpans(s[1..], open, close);
      assert out[1..] == RemoveSpans(s[1..], open, close);
    }
  }

  /** Collapsing leaves a string whose first character is not whitespace alone. */
  lemma CollapseHead(s: string)
    requires s != [] && !IsSpace(s[0])
    ensures Collapse(s) != [] && Collapse(s)[0] == s[0]
  {
  }

  /** After `re.sub(r"\s+", " ", s)` every whitespace run is a single space. */
  lemma {:induction false} CollapseIsCollapsed(s: string)
    ensures Collapsed(Collapse(s))
    decreases |s|
  {
    if s != [] {
      if IsSpace(s[0]) {
        var t := TrimStart(s);
        CollapseIsCollapsed(t);
        if t != [] {
          CollapseHead(t);
        }
        CollapsedCons(' ', Collapse(t));
      } else {
        CollapseIsCollapsed(s[1..]);
        CollapsedCons(s[0], Collapse(s[1..]));
      }
    }
  }

  /** Putting a plain space or a non-space character in front of a collapsed
      string keeps it collapsed, unless a space would meet another. */
  lemma CollapsedCons(c: char, rest: string)
    requires Collapsed(rest)
    requires c == ' ' || !IsSpace(c)
    requires c == ' ' && rest != [] ==> !IsSpace(rest[0])
    ensures Collapsed([c] + rest)
  {
    var out := [c] + rest;
    assert forall k :: 1 <= k < |out| ==> out[k] == rest[k - 1];
  }

  lemma {:induction false} NonSpaceAppend(a: string, b: string)
    ensures NonSpace(a + b) == NonSpace(a) + NonSpace(b)
    decreases |a|
  {
    if a != [] {
      assert (a + b)[1..] == a[1..] + b;
      NonSpaceAppend(a[1..], b);
    } else {
      assert a + b == b;
    }
  }

  lemma {:induction false} NonSpaceTrimStart(s: string)
    ensures NonSpace(TrimStart(s)) == NonSpace(s)
    decreases |s|
  {
    if s != [] && IsSpace(s[0]) {
      NonSpaceTrimStart(s[1..]);
    }
  }

  lemma {:induction false} NonSpaceTrimEnd(s: string)
    ensures NonSpace(TrimEnd(s)) == NonSpace(s)
    decreases |s|
  {
    if s != [] && IsSpace(s[|s| - 1]) {
      var init := s[..|s| - 1];
      NonSpaceTrimEnd(init);
      assert s == init + [s[|s| - 1]];
      NonSpaceAppend(init, [s[|s| - 1]]);
    }
  }

  /** Collapsing whitespace changes no other character. */
  lemma {:induction false} NonSpaceCollapse(s: string)
    ensures NonSpace(Collapse(s)) == NonSpace(s)
    decreases |s|
  {
    if s != [] {
      if IsSpace(s[0]) {
        var t := TrimStart(s);
        NonSpaceCollapse(t);
        NonSpaceTrimStart(s);
        NonSpaceCons(' ', Collapse(t));
      } else {
        NonSpaceCollapse(s[1..]);
        NonSpaceCons(s[0], Collapse(s[1..]));
      }
    }
  }

  lemma NonSpaceCons(c: char, x: string)
    ensures NonSpace([c] + x) == (if IsSpace(c) then [] else [c]) + NonSpace(x)
  {
    assert ([c] + x)[1..] == x;
  }

  lemma CollapsedSlice(s: string, a: nat, b: nat)
    requires a <= b <= |s| && Collapsed(s)
    ensures Collapsed(s[a..b])
  {
    var r := s[a..b];
    assert forall k :: 0 <= k < |r| ==> r[k] == s[a + k];
  }

  /** Stripping keeps a collapsed string collapsed, leaves no whitespace at
      either end and drops no other character. */
  lemma StripKeeps(s: string)
    ensures var r := Strip(s);
      (r != [] ==> !IsSpace(r[0]) && !IsSpace(r[|r| - 1])) &&
      (Collapsed(s) ==> Collapsed(r)) &&
      NonSpace(r) == NonSpace(s)
  {
    var t := TrimStart(s);
    NonSpaceTrimStart(s);
    NonSpaceTrimEnd(t);
    if Collapsed(s) {
      StripCollapsed(s);
    }
  }

  lemma StripCollapsed(s: string)
    requires Collapsed(s)
    ensures Collapsed(Strip(s))
  {
    TrimStartCollapsed(s);
    TrimEndCollapsed(TrimStart(s));
  }

  lemma TrimStartCollapsed(s: string)
    requires Collapsed(s)
    ensures Collapsed(TrimStart(s))
  {
    CollapsedSuffix(s, TrimStart(s));
  }

  lemma TrimEndCollapsed(s: string)
    requires Collapsed(s)
    ensures Collapsed(TrimEnd(s))
  {
    CollapsedPrefix(s, TrimEnd(s));
  }

  lemma CollapsedSuffix(s: string, t: string)
    requires Collapsed(s) && |t| <= |s| && t == s[|s| - |t|..]
    ensures Collapsed(t)
  {
    CollapsedSlice(s, |s| - |t|, |s|);
    assert t == s[|s| - |t|..|s|];
  }

  lemma CollapsedPrefix(s: string, r: string)
    requires Collapsed(s) && |r| <= |s| && r == s[..|r|]
    ensures Collapsed(r)
  {
    CollapsedSlice(s, 0, |r|);
    assert r == s[0..|r|];
  }

  /** A non-empty run of characters none of which is whitespace. */
  predicate Unspaced(w: string)
  {
    w != [] && forall k :: 0 <= k < |w| ==> !IsSpace(w[k])
  }

  /** The length of the longest prefix of `t` without whitespace. */
  function WordEnd(t: string): (n: nat)
    ensures n <= |t|
    ensures forall k :: 0 <= k < n ==> !IsSpace(t[k])
    ensures n < |t| ==> IsSpace(t[n])
    decreases |t|
  {
    if t == [] || IsSpace(t[0]) then 0 else 1 + WordEnd(t[1..])
  }

  /** Python's `s.split()` with no separator: the maximal runs of
      non-whitespace characters, in order. An independent reference for
      what collapsing and stripping leave between the words. */
  function Words(s: string): seq<string>
    decreases |s|
  {
    var t := TrimStart(s);
    if t == [] then []
    else
      var n := WordEnd(t);
      [t[..n]] + Words(t[n..])
  }

  /** A word followed by words is a sequence of words. */
  lemma UnspacedCons(w: string, rest: seq<string>)
    requires Unspaced(w)
    requires forall i :: 0 <= i < |rest| ==> Unspaced(rest[i])
    ensures forall i :: 0 <= i < |[w] + rest| ==> Unspaced(([w] + rest)[i])
  {
  }

  /** The leading run `WordEnd` measures is a word. */
  lemma WordEndUnspaced(t: string)
    requires t != [] && !IsSpace(t[0])
    ensures Unspaced(t[..WordEnd(t)])
  {
  }

  /** Every word is nonempty and free of whitespace. */
  lemma {:induction false} WordsUnspaced(s: string)
    ensures forall i :: 0 <= i < |Words(s)| ==> Unspaced(Words(s)[i])
    decreases |s|
  {
    var t := TrimStart(s);
    if t != [] {
      var n := WordEnd(t);
      WordsUnspaced(t[n..]);
      WordEndUnspaced(t);
      UnspacedCons(t[..n], Words(t[n..]));
    }
  }

  /** Without leading whitespace, `lstrip` changes nothing. */
  lemma TrimStartNone(t: string)
    requires t == [] || !IsSpace(t[0])
    ensures TrimStart(t) == t
  {
  }

  /** A string that starts with a word splits into that word and the words
      of the rest. */
  lemma WordsCons(t: string)
    requires t != [] && !IsSpace(t[0])
    ensures var n := WordEnd(t);
      && 0 < n
      && Words(t) == [t[..n]] + Words(t[n..])
  {
    TrimStartNone(t);
  }

  /** Leading whitespace does not change the words. */
  lemma WordsTrim(s: string)
    ensures Words(s) == Words(TrimStart(s))
  {
    TrimStartNone(TrimStart(s));
  }

  /** A space-joined list of words has no whitespace at either end. */
  lemma JoinWordsEnds(ws: seq<string>)
    requires forall i :: 0 <= i < |ws| ==> Unspaced(ws[i])
    ensures var x := Join(" ", ws);
      x == [] || (!IsSpace(x[0]) && !IsSpace(x[|x| - 1]))
  {
    if ws != [] {
      var x := Join(" ", ws);
      var last := ws[|ws| - 1];
      assert Unspaced(ws[0]) && Unspaced(last);
      assert x[0] == ws[0][0];
      if |ws| > 1 {
        assert x == Join(" ", ws[..|ws| - 1]) + " " + last;
      }
      assert x[|x| - 1] == last[|last| - 1];
    }
  }

  /** `strip` leaves text without whitespace at its ends unchanged, and
      removes one space added after it. */
  lemma StripBare(x: string)
    requires x == [] || (!IsSpace(x[0]) && !IsSpace(x[|x| - 1]))
    ensures Strip(x) == x && Strip(x + " ") == x
  {
    TrimStartNone(x);
    TrimEndNone(x);
    TrimEndSpace(x);
    if x == [] {
      TrimStartLead(x);
    } else {
      assert (x + " ")[0] == x[0];
      TrimStartNone(x + " ");
    }
  }

  /** Without trailing whitespace, `rstrip` changes nothing. */
  lemma TrimEndNone(x: string)
    requires x == [] || !IsSpace(x[|x| - 1])
    ensures TrimEnd(x) == x
  {
  }

  /** `rstrip` drops one space added at the end. */
  lemma TrimEndSpace(x: string)
    ensures TrimEnd(x + " ") == TrimEnd(x)
  {
    var y := x + " ";
    assert y[..|y| - 1] == x;
    assert IsSpace(y[|y| - 1]);
  }


  /** A leading word is copied as it is, then the rest is collapsed. */
  lemma CollapseFront(t: string, n: nat)
    requires n <= |t| && forall k :: 0 <= k < n ==> !IsSpace(t[k])
    ensures Collapse(t) == t[..n] + Collapse(t[n..])
  {
    assert t == t[..n] + t[n..];
    CollapsePlain(t[..n], t[n..]);
  }

  /** Leading whitespace collapses to one space. */
  lemma CollapseLead(s: string)
    requires s != [] && IsSpace(s[0])
    ensures Collapse(s) == " " + Collapse(TrimStart(s))
  {
  }

  /** A leading space makes no difference to `strip`. */
  lemma StripLead(c: string)
    ensures Strip(" " + c) == Strip(c)
  {
    TrimStartLead(c);
  }

  /** `lstrip` skips one leading space. */
  lemma TrimStartLead(c: string)
    ensures TrimStart(" " + c) == TrimStart(c)
  {
    var s := " " + c;
    assert s[1..] == c;
    assert IsSpace(s[0]);
  }

  /** The string identity behind one step of `CollapseWords`. */
  lemma Assemble(w: string, cu: string, ju: string, e: string, x: string, y: string)
    requires cu == ju + e
    requires x == w + (" " + cu) && y == w + " " + ju
    ensures x == y + e
  {
  }

  /** The one space `\s+` leaves at the end of a string that ends with
      whitespace, and nothing otherwise. */
  function TrailingSpace(t: string): string
  {
    if t != [] && IsSpace(t[|t| - 1]) then " " else ""
  }

  /** After the first word of `t` and the whitespace that follows it, the
      last character of `t` is either gone (all of it was whitespace) or is
      the last character of what remains. */
  lemma TrailingOfRest(t: string, n: nat)
    requires 0 < n < |t| && IsSpace(t[n])
    ensures var u := TrimStart(t[n..]);
      TrailingSpace(t) == if u == [] then " " else TrailingSpace(u)
  {
    var rest := t[n..];
    var u := TrimStart(rest);
    TrailingSuffix(t, rest);
    if u == [] {
      assert IsSpace(rest[|rest| - 1]);
    } else {
      TrailingSuffix(rest, u);
    }
  }

  /** A non-empty suffix ends with the same character as the whole. */
  lemma TrailingSuffix(t: string, r: string)
    requires r != [] && |r| <= |t| && r == t[|t| - |r|..]
    ensures TrailingSpace(r) == TrailingSpace(t)
  {
    assert r[|r| - 1] == t[|t| - 1];
  }

  /** Collapsing a string that does not start with whitespace gives its words
      joined by single spaces, followed by one space exactly when the string
      ends with whitespace. */
  lemma {:induction false} CollapseWords(t: string)
    requires t == [] || !IsSpace(t[0])
    ensures Collapse(t) == Join(" ", Words(t)) + TrailingSpace(t)
    decreases |t|
  {
    if t != [] {
      var n := WordEnd(t);
      if n == |t| {
        CollapseOneWord(t);
      } else {
        var u := TrimStart(t[n..]);
        CollapseWords(u);
        if u == [] {
          CollapseLastWord(t, n);
        } else {
          CollapseNextWord(t, n, u);
        }
      }
    }
  }

  /** `CollapseWords` for a single word. */
  lemma CollapseOneWord(t: string)
    requires t != [] && !IsSpace(t[0]) && WordEnd(t) == |t|
    ensures Collapse(t) == Join(" ", Words(t)) + TrailingSpace(t)
  {
    WordsCons(t);
    CollapseFront(t, |t|);
    assert t[|t|..] == [];
    assert Words(t[|t|..]) == [];
    assert t[..|t|] == t;
    assert !IsSpace(t[|t| - 1]);
  }

  /** `CollapseWords` for one word followed by whitespace only. */
  lemma CollapseLastWord(t: string, n: nat)
    requires t != [] && !IsSpace(t[0]) && n == WordEnd(t) < |t|
    requires TrimStart(t[n..]) == []
    ensures Collapse(t) == Join(" ", Words(t)) + TrailingSpace(t)
  {
    var w, rest := t[..n], t[n..];
    assert Collapse(rest) == " " by {
      CollapseLead(rest);
    }
    assert Words(t) == [w] by {
      WordsCons(t);
      WordsTrim(rest);
      assert Words(rest) == [];
    }
    assert TrailingSpace(t) == " " by {
      TrailingOfRest(t, n);
    }
    CollapseFront(t, n);
  }

  /** `CollapseWords` for one word, whitespace, and a collapsed remainder
      `u` that has words. */
  lemma CollapseNextWord(t: string, n: nat, u: string)
    requires t != [] && !IsSpace(t[0]) && n == WordEnd(t) < |t|
    requires u == TrimStart(t[n..]) && u != []
    requires Collapse(u) == Join(" ", Words(u)) + TrailingSpace(u)
    ensures Collapse(t) == Join(" ", Words(t)) + TrailingSpace(t)
  {
    var w, rest := t[..n], t[n..];
    var us := Words(u);
    WordsCons(t);
    CollapseFront(t, n);
    CollapseLead(rest);
    WordsTrim(rest);
    TrailingOfRest(t, n);
    WordsCons(u);
    JoinCons(" ", w, us);
    Assemble(w, Collapse(u), Join(" ", us), TrailingSpace(u), Collapse(t), Join(" ", Words(t)));
  }

  /** Collapsing and then stripping is joining the words with single
      spaces. */
  lemma StripCollapseWords(s: string)
    ensures Strip(Collapse(s)) == Join(" ", Words(s))
  {
    var t := TrimStart(s);
    StripCollapseTrimmed(t);
    WordsTrim(s);
    if s != [] && IsSpace(s[0]) {
      CollapseLead(s);
      StripLead(Collapse(t));
    } else {
      TrimStartNone(s);
    }
  }

  /** `StripCollapseWords` for a string with no leading whitespace. */
  lemma StripCollapseTrimmed(t: string)
    requires t == [] || !IsSpace(t[0])
    ensures Strip(Collapse(t)) == Join(" ", Words(t))
  {
    CollapseWords(t);
    WordsUnspaced(t);
    JoinWordsEnds(Words(t));
    StripEither(Collapse(t), Join(" ", Words(t)));
  }


  /** Stripping the joined words, with or without one trailing space, gives
      them back. */
  lemma StripEither(c: string, j: string)
    requires c == j || c == j + " "
    requires j == [] || (!IsSpace(j[0]) && !IsSpace(j[|j| - 1]))
    ensures Strip(c) == j
  {
    StripBare(j);
    if c == j {
      assert Strip(c) == Strip(j);
    } else {
      assert Strip(c) == Strip(j + " ");
    }
  }


  /** `clean_text` is Python's `" ".join(bare.split())` of the text with its
      annotations removed: the words, in order, separated by single spaces. */
  lemma CleanTextWords(text: string)
    ensures CleanText(text) == Join(" ", Words(RemoveSpans(RemoveSpans(text, '[', ']'), '(', ')')))
  {
    StripCollapseWords(RemoveSpans(RemoveSpans(text, '[', ']'), '(', ')'));
  }

  /** Characters that are neither whitespace nor any of the brackets. */
  predicate Word(w: string)
  {
    forall k :: 0 <= k < |w| ==> !IsSpace(w[k]) && w[k] !in "[]()"
  }

  /** Annotations between words are dropped together with the whitespace they
      leave behind: `a [note] b (note')` cleans to `a b`, so
      `hello [laughs] world (pause)` cleans to `hello world`. */
  lemma CleanTextDropsNotes(a: string, note1: string, b: string, note2: string)
    requires a != [] && b != [] && Word(a) && Word(b)
    requires ']' !in note1 && '\n' !in note1 && ')' !in note2 && '\n' !in note2
    requires '[' !in note2
    ensures CleanText(a + " [" + note1 + "] " + b + " (" + note2 + ")") == a + " " + b
  {
    var text := a + " [" + note1 + "] " + b + " (" + note2 + ")";
    var bare := a + "  " + b + " ";
    NotesRemoved(a, note1, b, note2);
    assert RemoveSpans(RemoveSpans(text, '[', ']'), '(', ')') == bare;
    CollapseExample(a, b);
    assert Collapse(bare) == a + " " + b + " ";
    StripExample(a + " " + b);
  }

  /** Removing both kinds of annotation from `a [note] b (note')` leaves the
      words with the whitespace that surrounded the annotations. */
  lemma NotesRemoved(a: string, note1: string, b: string, note2: string)
    requires Word(a) && Word(b)
    requires ']' !in note1 && '\n' !in note1 && ')' !in note2 && '\n' !in note2
    requires '[' !in note2
    ensures RemoveSpans(RemoveSpans(a + " [" + note1 + "] " + b + " (" + note2 + ")", '[', ']'), '(', ')')
      == a + "  " + b + " "
  {
    NotesShape(a, note1, b, note2);
    TwoSpansRemoved(a + " [" + note1 + "] " + b + " (" + note2 + ")", a + " ", note1,
                    " " + b + " (" + note2 + ")", a + "  " + b + " ", note2);
  }

  /** How `a [note] b (note')` falls apart around its two annotations. */
  lemma NotesShape(a: string, note1: string, b: string, note2: string)
    requires Word(a) && Word(b) && '[' !in note2
    ensures var pre, tail, bare := a + " ", " " + b + " (" + note2 + ")", a + "  " + b + " ";
      && a + " [" + note1 + "] " + b + " (" + note2 + ")" == pre + "[" + note1 + "]" + tail
      && pre + tail == bare + "(" + note2 + ")"
      && '[' !in pre && '[' !in tail && '(' !in bare
  {
    var pre, tail, bare := a + " ", " " + b + " (" + note2 + ")", a + "  " + b + " ";
    assert '[' !in pre by { assert forall k :: 0 <= k < |a| ==> a[k] != '['; }
    assert '[' !in tail by { assert forall k :: 0 <= k < |b| ==> b[k] != '['; }
    assert '(' !in bare by {
      assert forall k :: 0 <= k < |a| ==> a[k] != '(';
      assert forall k :: 0 <= k < |b| ==> b[k] != '(';
    }
  }

  /** A `[...]` span, and then a `(...)` span in what is left, removed in turn. */
  lemma TwoSpansRemoved(text: string, pre: string, note1: string, tail: string, bare: string, note2: string)
    requires text == pre + "[" + note1 + "]" + tail && pre + tail == bare + "(" + note2 + ")"
    requires '[' !in pre && '[' !in tail && '(' !in bare
    requires ']' !in note1 && '\n' !in note1 && ')' !in note2 && '\n' !in note2
    ensures RemoveSpans(RemoveSpans(text, '[', ']'), '(', ')') == bare
  {
    BracketRemoved(pre, note1, tail);
    ParenRemoved(bare, note2);
  }

  lemma BracketRemoved(pre: string, note: string, tail: string)
    requires '[' !in pre && '[' !in tail
    requires ']' !in note && '\n' !in note
    ensures RemoveSpans(pre + "[" + note + "]" + tail, '[', ']') == pre + tail
  {
    assert pre + "[" + note + "]" + tail == pre + (['['] + note + [']'] + tail);
    RemoveOneSpan(pre, note, tail, '[', ']');
  }

  lemma ParenRemoved(bare: string, note2: string)
    requires '(' !in bare
    requires ')' !in note2 && '\n' !in note2
    ensures RemoveSpans(bare + "(" + note2 + ")", '(', ')') == bare
  {
    assert bare + "(" + note2 + ")" == bare + (['('] + note2 + [')'] + "");
    RemoveOneSpan(bare, note2, "", '(', ')');
    assert bare + "" == bare;
  }

  lemma CollapseExample(a: string, b: string)
    requires b != [] && Word(a) && Word(b)
    ensures Collapse(a + "  " + b + " ") == a + " " + b + " "
  {
    var x := b + " ";
    assert a + "  " + b + " " == a + ("  " + x);
    CollapseGap(a, x);
    CollapseTail(b);
  }

  /** Two spaces between words collapse to one. */
  lemma CollapseGap(a: string, x: string)
    requires Word(a) && x != [] && !IsSpace(x[0])
    ensures Collapse(a + ("  " + x)) == a + (" " + Collapse(x))
  {
    CollapsePlain(a, "  " + x);
    CollapseRun("  ", x);
  }

  /** A single trailing space stays. */
  lemma CollapseTail(b: string)
    requires Word(b)
    ensures Collapse(b + " ") == b + " "
  {
    CollapsePlain(b, " ");
    CollapseSpace();
  }

  lemma CollapseSpace()
    ensures Collapse(" ") == " "
  {
  }

  lemma StripExample(s: string)
    requires s != [] && !IsSpace(s[0]) && !IsSpace(s[|s| - 1])
    ensures Strip(s + " ") == s
  {
    var t := s + " ";
    assert TrimStart(t) == t;
    assert t[..|t| - 1] == s;
  }

  /** Text without whitespace passes through `Collapse` unchanged. */
  lemma {:induction false} CollapsePlain(a: string, b: string)
    requires forall k :: 0 <= k < |a| ==> !IsSpace(a[k])
    ensures Collapse(a + b) == a + Collapse(b)
    decreases |a|
  {
    if a != [] {
      var s := a + b;
      assert s[0] == a[0] && s[1..] == a[1..] + b;
      CollapseKeeps(s);
      CollapsePlain(a[1..], b);
      assert a + Collapse(b) == [a[0]] + (a[1..] + Collapse(b));
    } else {
      assert a + b == b;
    }
  }

  /** A leading character that is not whitespace is copied as it is. */
  lemma CollapseKeeps(s: string)
    requires s != [] && !IsSpace(s[0])
    ensures Collapse(s) == [s[0]] + Collapse(s[1..])
  {
  }

  /** A whitespace run before a non-space character becomes one space. */
  lemma CollapseRun(run: string, b: string)
    requires run != [] && forall k :: 0 <= k < |run| ==> IsSpace(run[k])
    requires b == [] || !IsSpace(b[0])
    ensures Collapse(run + b) == " " + Collapse(b)
  {
    TrimStartRun(run, b);
  }

  lemma {:induction false} TrimStartRun(run: string, b: string)
    requires forall k :: 0 <= k < |run| ==> IsSpace(run[k])
    requires b == [] || !IsSpace(b[0])
    ensures TrimStart(run + b) == b
    decreases |run|
  {
    if run != [] {
      assert (run + b)[1..] == run[1..] + b;
      TrimStartRun(run[1..], b);
    } else {
      assert run + b == b;
    }
  }
}
