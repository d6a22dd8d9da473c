/** Sentence segmentation of an incident narrative (backend/app.py, line 117):
    split on '.', strip whitespace from every piece, drop the pieces that
    strip to nothing. */
module Segmenter {
  import opened Sequences

  /** The characters Python's str.isspace() accepts, by code point: \t \n
      \v \f \r, the separators U+001C..U+001F and the space, U+0085, the
      no-break space U+00A0 and the Unicode space, line and paragraph
      separators. str.strip()
      without an argument removes exactly these from both ends. */
  predicate IsWhitespace(c: char)
    ensures c == ' ' || c == '\t' || c == '\n' || c == '\r' ==> IsWhitespace(c)
    ensures IsWhitespace(c) ==> c != '.' && !('0' <= c <= '9') && !('a' <= c <= 'z') && !('A' <= c <= 'Z')
  {
    var n := c as int;
    || 0x09 <= n <= 0x0D || 0x1C <= n <= 0x20
    || n == 0x85 || n == 0xA0 || n == 0x1680
    || 0x2000 <= n <= 0x200A
    || n == 0x2028 || n == 0x2029 || n == 0x202F || n == 0x205F || n == 0x3000
  }

  /** The character the narrative is split on. */
  const Terminator: char := '.'

  /** A character that segmentation consumes: a terminator or whitespace. */
  predicate IsSeparator(c: char) {
    c == Terminator || IsWhitespace(c)
  }

  /** Number of terminators in `s`. */
  function DotCount(s: string): nat {
    if s == [] then 0 else (if s[0] == Terminator then 1 else 0) + DotCount(s[1..])
  }

  /** Python's `s.split('.')`: the pieces between terminators, always at least one. */
  function Split(s: string): (pieces: seq<string>)
    ensures forall k :: 0 <= k < |pieces| ==> Terminator !in pieces[k]
  {
    if s == [] then [[]]
    else
      var rest := Split(s[1..]);
      if s[0] == Terminator then [[]] + rest
      else if rest == [] then [[s[0]]]
      else [[s[0]] + rest[0]] + rest[1..]
  }

  /** There is one piece more than there are terminators. */
  lemma {:induction false} SplitCount(s: string)
    ensures |Split(s)| == DotCount(s) + 1
  {
    if s != [] {
      SplitCount(s[1..]);
    }
  }

  /** Python's `'.'.join(pieces)`, the inverse of Split. */
  function Join(pieces: seq<string>): string {
    if pieces == [] then []
    else if |pieces| == 1 then pieces[0]
    else pieces[0] + [Terminator] + Join(pieces[1..])
  }

  /** Joining the pieces back with '.' restores the narrative. */
  lemma {:induction false} JoinSplit(s: string)
    ensures Join(Split(s)) == s
  {
    if s != [] {
      JoinSplit(s[1..]);
      var rest := Split(s[1..]);
      var pieces := Split(s);
      if s[0] == Terminator {
        assert pieces == [[]] + rest;
        assert pieces[1..] == rest;
        assert s == [Terminator] + s[1..];
      } else {
        assert pieces[0] == [s[0]] + rest[0];
        assert pieces[1..] == rest[1..];
        if |rest| == 1 {
          assert s == [s[0]] + rest[0];
        } else {
          assert Join(rest) == rest[0] + [Terminator] + Join(rest[1..]);
          assert s == [s[0]] + s[1..];
        }
      }
    }
  }

  /** A piece without a terminator splits to itself. */
  lemma {:induction false} SplitWithoutTerminator(p: string)
    requires Terminator !in p
    ensures Split(p) == [p]
  {
    if p != [] {
      SplitWithoutTerminator(p[1..]);
      assert p == [p[0]] + p[1..];
    }
  }

  /** Splitting stops at the first terminator. */
  lemma {:induction false} SplitAtTerminator(p: string, s: string)
    requires Terminator !in p
    ensures Split(p + [Terminator] + s) == [p] + Split(s)
  {
    var t := p + [Terminator] + s;
    if p == [] {
      assert t[0] == Terminator && t[1..] == s;
    } else {
      SplitAtTerminator(p[1..], s);
      assert t[0] == p[0] && t[1..] == p[1..] + [Terminator] + s;
      assert p == [p[0]] + p[1..];
    }
  }

  /** Splitting '.'-free pieces joined with '.' gives the pieces back. */
  lemma {:induction false} SplitJoin(pieces: seq<string>)
    requires |pieces| >= 1
    requires forall k :: 0 <= k < |pieces| ==> Terminator !in pieces[k]
    ensures Split(Join(pieces)) == pieces
  {
    if |pieces| == 1 {
      SplitWithoutTerminator(pieces[0]);
    } else {
      SplitJoin(pieces[1..]);
      SplitAtTerminator(pieces[0], Join(pieces[1..]));
      assert pieces == [pieces[0]] + pieces[1..];
    }
  }

  /** The characters of `s` that are neither whitespace nor a terminator, in order. */
  function Content(s: string): string {
    if s == [] then [] else (if IsSeparator(s[0]) then [] else [s[0]]) + Content(s[1..])
  }

  lemma {:induction false} ContentAppend(a: string, b: string)
    ensures Content(a + b) == Content(a) + Content(b)
  {
    if a == [] {
      assert a + b == b;
    } else {
      var head := if IsSeparator(a[0]) then [] else [a[0]];
      assert (a + b)[0] == a[0] && (a + b)[1..] == a[1..] + b;
      assert Content(a + b) == head + Content(a[1..] + b);
      ContentAppend(a[1..], b);
      assert Content(a) == head + Content(a[1..]);
    }
  }

  /** A string has no content exactly when every character is a separator. */
  lemma {:induction false} ContentEmpty(s: string)
    ensures Content(s) == [] <==> forall k :: 0 <= k < |s| ==> IsSeparator(s[k])
  {
    if s != [] {
      ContentEmpty(s[1..]);
      assert forall k :: 1 <= k < |s| ==> s[k] == s[1..][k - 1];
    }
  }

  /** Python's `s.lstrip()`. */
  function TrimStart(s: string): (r: string)
    ensures |r| <= |s| && r == s[|s| - |r|..]
    ensures forall k :: 0 <= k < |s| - |r| ==> IsWhitespace(s[k])
    ensures r == [] || !IsWhitespace(r[0])
  {
    if s != [] && IsWhitespace(s[0]) then
      var r := TrimStart(s[1..]);
      assert s[1..][|s| - 1 - |r|..] == s[|s| - |r|..];
      assert forall k :: 1 <= k < |s| - |r| ==> s[k] == s[1..][k - 1];
      r
    else s
  }

  /** Python's `s.rstrip()`. */
  function TrimEnd(s: string): (r: string)
    ensures |r| <= |s| && r == s[..|r|]
    ensures forall k :: |r| <= k < |s| ==> IsWhitespace(s[k])
    ensures r == [] || !IsWhitespace(r[|r| - 1])
  {
    if s != [] && IsWhitespace(s[|s| - 1]) then TrimEnd(s[..|s| - 1]) else s
  }

  /** What lstrip removes is whitespace: the content is untouched. */
  lemma {:induction false} TrimStartContent(s: string)
    ensures Content(TrimStart(s)) == Content(s)
  {
    if s != [] && IsWhitespace(s[0]) {
      TrimStartContent(s[1..]);
    }
  }

  /** What rstrip removes is whitespace: the content is untouched. */
  lemma {:induction false} TrimEndContent(s: string)
    ensures Content(TrimEnd(s)) == Content(s)
  {
    if s != [] && IsWhitespace(s[|s| - 1]) {
      var n := |s| - 1;
      TrimEndContent(s[..n]);
      assert s == s[..n] + [s[n]];
      ContentAppend(s[..n], [s[n]]);
      assert Content([s[n]]) == [] + Content([]);
    }
  }

  /** `strip()` keeps a character only if the text has it. */
  lemma TrimBothKeepsMembers(s: string)
    ensures forall c :: c in TrimEnd(TrimStart(s)) ==> c in s
  {
    var t := TrimStart(s);
    var r := TrimEnd(t);
    assert forall c :: c in t ==> c in s;
    assert forall c :: c in r ==> c in t;
  }

  /** `strip()` gives the empty string exactly for all-whitespace text. */
  lemma TrimBothEmpty(s: string)
    ensures TrimEnd(TrimStart(s)) == [] <==> forall k :: 0 <= k < |s| ==> IsWhitespace(s[k])
  {
    var t := TrimStart(s);
    var r := TrimEnd(t);
    var d := |s| - |t|;
    if r == [] {
      assert |t| == 0;
    } else {
      assert r[0] == t[0] == s[d];
    }
  }

  /** `r` is `s` with whitespace cut from its two ends: a contiguous slice
      of `s` outside which every character is whitespace. */
  predicate CutFromEnds(s: string, r: string) {
    exists i, j :: 0 <= i <= j <= |s| && r == s[i..j]
      && (forall k :: 0 <= k < i ==> IsWhitespace(s[k]))
      && (forall k :: j <= k < |s| ==> IsWhitespace(s[k]))
  }

  /** Cutting whitespace off the front and then off the back cuts it from both ends. */
  lemma PrefixOfSuffix(s: string, t: string, r: string)
    requires |t| <= |s| && t == s[|s| - |t|..]
    requires forall k :: 0 <= k < |s| - |t| ==> IsWhitespace(s[k])
    requires |r| <= |t| && r == t[..|r|]
    requires forall k :: |r| <= k < |t| ==> IsWhitespace(t[k])
    ensures CutFromEnds(s, r)
  {
    var i := |s| - |t|;
    var j := i + |r|;
    assert r == s[i..j];
    forall k | j <= k < |s|
      ensures IsWhitespace(s[k])
    {
      assert s[k] == t[k - i];
    }
  }

  /** `strip()` cuts only whitespace, and only from the two ends of the text. */
  lemma TrimBothInfix(s: string)
    ensures CutFromEnds(s, TrimEnd(TrimStart(s)))
  {
    PrefixOfSuffix(s, TrimStart(s), TrimEnd(TrimStart(s)));
  }

  /** Python's `s.strip()`: removes leading and trailing whitespace and
      nothing else (`StripCutsEnds` below states the "nothing else"). */
  function Strip(s: string): (r: string)
    ensures |r| <= |s|
    ensures forall c :: c in r ==> c in s
    ensures r == [] || (!IsWhitespace(r[0]) && !IsWhitespace(r[|r| - 1]))
    ensures r == [] <==> forall k :: 0 <= k < |s| ==> IsWhitespace(s[k])
    ensures Content(r) == Content(s)
    ensures exists i, j :: 0 <= i <= j <= |s| && r == s[i..j]
  {
    var t := TrimStart(s);
    TrimStartContent(s);
    TrimEndContent(t);
    TrimBothKeepsMembers(s);
    TrimBothEmpty(s);
    TrimBothInfix(s);
    var r := TrimEnd(t);
    assert r != [] ==> r[0] == t[0];
    r
  }

  /** `strip()` cuts only whitespace, and only from the two ends: the result
      is a slice of the text outside which every character is whitespace. */
  lemma StripCutsEnds(s: string)
    ensures CutFromEnds(s, Strip(s))
  {
    TrimBothInfix(s);
  }

  /** What segmentation promises of every fragment. */
  predicate IsFragment(f: string) {
    f != [] && Terminator !in f && !IsWhitespace(f[0]) && !IsWhitespace(f[|f| - 1])
  }

  /** The stripped pieces that are not blank, in their original order. */
  function Fragments(pieces: seq<string>): (fragments: seq<string>)
    requires forall k :: 0 <= k < |pieces| ==> Terminator !in pieces[k]
    ensures |fragments| <= |pieces|
    ensures forall k :: 0 <= k < |fragments| ==> IsFragment(fragments[k])
  {
    if pieces == [] then []
    else
      var f := Strip(pieces[0]);
      var rest := Fragments(pieces[1..]);
      assert Terminator !in pieces[0];
      assert f != [] ==> IsFragment(f);
      (if f == [] then [] else [f]) + rest
  }

  /** `[sentence.strip() for sentence in description.split('.') if sentence.strip()]` */
  function Segment(description: string): (fragments: seq<string>)
    ensures forall k :: 0 <= k < |fragments| ==> IsFragment(fragments[k])
  {
    Fragments(Split(description))
  }

  /** Every piece stripped, blank ones included, in their original order. */
  function Stripped(pieces: seq<string>): seq<string> {
    if pieces == [] then [] else [Strip(pieces[0])] + Stripped(pieces[1..])
  }

  /** One step of a filter that drops empty strings: keeping or dropping `f`
      in front preserves the subsequence and the multiset relation. */
  lemma FilterStep(f: string, kept: seq<string>, all: seq<string>)
    requires IsSubsequence(kept, all)
    requires forall x :: multiset(kept)[x] == if x == [] then 0 else multiset(all)[x]
    ensures IsSubsequence((if f == [] then [] else [f]) + kept, [f] + all)
    ensures forall x :: multiset((if f == [] then [] else [f]) + kept)[x] ==
              if x == [] then 0 else multiset([f] + all)[x]
  {
    assert ([f] + all)[1..] == all;
    if f != [] {
      assert ([f] + kept)[0] == f && ([f] + kept)[1..] == kept;
    } else {
      assert [] + kept == kept;
    }
  }

  /** The filter of the comprehension: the fragments are the stripped pieces
      in their original order with exactly the blank ones left out. */
  lemma {:induction false} FragmentsFilterStripped(pieces: seq<string>)
    requires forall k :: 0 <= k < |pieces| ==> Terminator !in pieces[k]
    ensures IsSubsequence(Fragments(pieces), Stripped(pieces))
    ensures forall x :: multiset(Fragments(pieces))[x] == if x == [] then 0 else multiset(Stripped(pieces))[x]
  {
    if pieces != [] {
      var f := Strip(pieces[0]);
      FragmentsFilterStripped(pieces[1..]);
      FilterStep(f, Fragments(pieces[1..]), Stripped(pieces[1..]));
      assert Fragments(pieces) == (if f == [] then [] else [f]) + Fragments(pieces[1..]);
      assert Stripped(pieces) == [f] + Stripped(pieces[1..]);
    }
  }

  /** Python's `[sentence.strip() for sentence in description.split('.') if
      sentence.strip()]`, pinned down: the stripped '.'-pieces of the
      narrative, in order, with exactly the blank ones dropped. */
  lemma SegmentFilter(description: string)
    ensures IsSubsequence(Segment(description), Stripped(Split(description)))
    ensures forall x :: multiset(Segment(description))[x] ==
              if x == [] then 0 else multiset(Stripped(Split(description)))[x]
  {
    FragmentsFilterStripped(Split(description));
  }

  /** There are at most as many fragments as terminators plus one. */
  lemma SegmentCount(description: string)
    ensures |Segment(description)| <= DotCount(description) + 1
  {
    SplitCount(description);
  }

  /** The fragments written one after the other. */
  function Concat(fragments: seq<string>): string {
    if fragments == [] then [] else fragments[0] + Concat(fragments[1..])
  }

  lemma {:induction false} ContentJoin(pieces: seq<string>)
    ensures Content(Join(pieces)) == Content(Concat(pieces))
  {
    if |pieces| == 1 {
      assert pieces[1..] == [];
      assert Concat(pieces) == pieces[0] + [] == pieces[0];
    } else if |pieces| > 1 {
      ContentJoin(pieces[1..]);
      ContentAppend(pieces[0] + [Terminator], Join(pieces[1..]));
      ContentAppend(pieces[0], [Terminator]);
      ContentAppend(pieces[0], Concat(pieces[1..]));
    }
  }

  lemma {:induction false} ContentFragments(pieces: seq<string>)
    requires forall k :: 0 <= k < |pieces| ==> Terminator !in pieces[k]
    ensures Content(Concat(Fragments(pieces))) == Content(Concat(pieces))
  {
    if pieces != [] {
      var p := pieces[0];
      var f := Strip(p);
      var rest := Fragments(pieces[1..]);
      ContentFragments(pieces[1..]);
      assert Concat(pieces) == p + Concat(pieces[1..]);
      ContentAppend(p, Concat(pieces[1..]));
      assert Content(f) == Content(p);
      if f == [] {
        assert Fragments(pieces) == rest;
      } else {
        var fs := [f] + rest;
        assert Fragments(pieces) == fs;
        assert fs[0] == f && fs[1..] == rest;
        assert Concat(fs) == f + Concat(rest);
        ContentAppend(f, Concat(rest));
      }
    }
  }

  /** Segmentation loses and reorders nothing but whitespace and terminators:
      the fragments, written one after the other, carry the narrative's
      other characters in reading order. */
  lemma SegmentKeepsContent(description: string)
    ensures Content(Concat(Segment(description))) == Content(description)
  {
    ContentFragments(Split(description));
    ContentJoin(Split(description));
    JoinSplit(description);
  }

  /** Segmentation yields nothing exactly when the narrative is empty,
      whitespace, terminators, or a mix of the two. */
  lemma SegmentEmptyIff(description: string)
    ensures Segment(description) == [] <==>
              forall k :: 0 <= k < |description| ==> IsSeparator(description[k])
  {
    var fragments := Segment(description);
    SegmentKeepsContent(description);
    ContentEmpty(description);
    if fragments != [] {
      var f := fragments[0];
      assert IsFragment(f);
      ContentAppend(f, Concat(fragments[1..]));
      ContentEmpty(f);
      assert f[0] in f;
      assert !IsSeparator(f[0]);
    }
  }

  lemma {:induction false} JoinLength(pieces: seq<string>)
    requires |pieces| >= 1
    ensures |Join(pieces)| == |Concat(pieces)| + |pieces| - 1
  {
    if |pieces| > 1 {
      JoinLength(pieces[1..]);
    }
  }

  lemma {:induction false} FragmentsLength(pieces: seq<string>)
    requires forall k :: 0 <= k < |pieces| ==> Terminator !in pieces[k]
    ensures |Concat(Fragments(pieces))| <= |Concat(pieces)|
  {
    if pieces != [] {
      FragmentsLength(pieces[1..]);
      var f := Strip(pieces[0]);
      var rest := Fragments(pieces[1..]);
      if f == [] {
        assert Fragments(pieces) == rest;
      } else {
        assert Fragments(pieces) == [f] + rest;
        assert ([f] + rest)[1..] == rest;
      }
    }
  }

  /** The fragments together are no longer than the narrative less its terminators. */
  lemma SegmentLength(description: string)
    ensures |Concat(Segment(description))| + DotCount(description) <= |description|
  {
    var pieces := Split(description);
    SplitCount(description);
    JoinSplit(description);
    JoinLength(pieces);
    FragmentsLength(pieces);
  }

  /** Stripping a string that has no whitespace at either end changes nothing. */
  lemma StripTrimmed(s: string)
    requires s == [] || (!IsWhitespace(s[0]) && !IsWhitespace(s[|s| - 1]))
    ensures Strip(s) == s
  {
  }
  /** lstrip() of whitespace followed by text that does not start with
      whitespace is that text. */
  lemma {:induction false} TrimStartPadded(w: string, s: string)
    requires forall k :: 0 <= k < |w| ==> IsWhitespace(w[k])
    requires s == [] || !IsWhitespace(s[0])
    ensures TrimStart(w + s) == s
  {
    if w == [] {
      assert w + s == s;
    } else {
      assert (w + s)[0] == w[0] && (w + s)[1..] == w[1..] + s;
      TrimStartPadded(w[1..], s);
    }
  }

  /** Whitespace in front of an already stripped text is all `strip` removes. */
  lemma StripPadded(w: string, s: string)
    requires forall k :: 0 <= k < |w| ==> IsWhitespace(w[k])
    requires s == [] || (!IsWhitespace(s[0]) && !IsWhitespace(s[|s| - 1]))
    ensures Strip(w + s) == s
  {
    TrimStartPadded(w, s);
  }

  /** A single piece made only of whitespace yields no fragment. */
  lemma FragmentsOfBlank(p: string)
    requires Terminator !in p
    requires forall k :: 0 <= k < |p| ==> IsWhitespace(p[k])
    ensures Fragments([p]) == []
  {
    TrimBothEmpty(p);
    assert [p][1..] == [];
  }

  /** The full stop is not whitespace. */
  lemma WhitespaceHasNoTerminator(w: string)
    requires forall k :: 0 <= k < |w| ==> IsWhitespace(w[k])
    ensures Terminator !in w
  {
  }

  /** The '.'-separated pieces of sentences written out as prose: the first
      sentence after `lead`, every later one after a space, and the empty
      piece that follows the final stop. */
  function Pieces(lead: string, sentences: seq<string>): (pieces: seq<string>)
    ensures |pieces| == |sentences| + 1
    decreases sentences
  {
    if sentences == [] then [[]]
    else [lead + sentences[0]] + Pieces([' '], sentences[1..])
  }

  /** Sentences written out as prose, "s1. s2. s3.": each closed by a full
      stop, with a space before every sentence but the first. */
  function Narration(sentences: seq<string>): string {
    Join(Pieces([], sentences))
  }

  /** None of the prose pieces contains a full stop. */
  lemma {:induction false} PiecesHaveNoTerminator(lead: string, sentences: seq<string>)
    requires forall k :: 0 <= k < |lead| ==> IsWhitespace(lead[k])
    requires forall k :: 0 <= k < |sentences| ==> IsFragment(sentences[k])
    ensures forall k :: 0 <= k < |Pieces(lead, sentences)| ==> Terminator !in Pieces(lead, sentences)[k]
    decreases sentences
  {
    if sentences != [] {
      var rest := sentences[1..];
      assert forall k :: 0 <= k < |rest| ==> rest[k] == sentences[k + 1];
      PiecesHaveNoTerminator([' '], rest);
      WhitespaceHasNoTerminator(lead);
      assert IsFragment(sentences[0]);
      var pieces := Pieces(lead, sentences);
      assert pieces == [lead + sentences[0]] + Pieces([' '], rest);
      forall k | 0 <= k < |pieces|
        ensures Terminator !in pieces[k]
      {
        if k > 0 {
          assert pieces[k] == Pieces([' '], rest)[k - 1];
        }
      }
    }
  }

  /** A first piece made of blank padding and a fragment contributes exactly
      that fragment. */
  lemma PaddedFront(lead: string, sentence: string, later: seq<string>, rest: seq<string>)
    requires forall k :: 0 <= k < |lead| ==> IsWhitespace(lead[k])
    requires IsFragment(sentence)
    requires forall k :: 0 <= k < |later| ==> Terminator !in later[k]
    requires Terminator !in lead + sentence
    requires Fragments(later) == rest
    ensures Fragments([lead + sentence] + later) == [sentence] + rest
  {
    StripPadded(lead, sentence);
    assert ([lead + sentence] + later)[1..] == later;
  }

  /** Stripping and filtering the prose pieces gives back the sentences. */
  lemma {:induction false} PiecesFragments(lead: string, sentences: seq<string>)
    requires forall k :: 0 <= k < |lead| ==> IsWhitespace(lead[k])
    requires forall k :: 0 <= k < |sentences| ==> IsFragment(sentences[k])
    requires forall k :: 0 <= k < |Pieces(lead, sentences)| ==> Terminator !in Pieces(lead, sentences)[k]
    ensures Fragments(Pieces(lead, sentences)) == sentences
    decreases sentences
  {
    if sentences == [] {
      FragmentsOfBlank([]);
    } else {
      var rest := sentences[1..];
      assert sentences == [sentences[0]] + rest;
      var later := Pieces([' '], rest);
      assert Pieces(lead, sentences) == [lead + sentences[0]] + later;
      forall k | 0 <= k < |later|
        ensures Terminator !in later[k]
      {
        assert later[k] == Pieces(lead, sentences)[k + 1];
      }
      assert Terminator !in lead + sentences[0];
      assert forall k :: 0 <= k < |rest| ==> IsFragment(rest[k]);
      assert IsWhitespace(' ');
      PiecesFragments([' '], rest);
      PaddedFront(lead, sentences[0], later, rest);
    }
  }

  /** Segmentation undoes narration: sentences that are already trimmed,
      non-empty and free of full stops come back unchanged and in order. */
  lemma NarrationSegments(sentences: seq<string>)
    requires forall k :: 0 <= k < |sentences| ==> IsFragment(sentences[k])
    ensures Segment(Narration(sentences)) == sentences
  {
    PiecesHaveNoTerminator([], sentences);
    SplitJoin(Pieces([], sentences));
    PiecesFragments([], sentences);
  }
}
