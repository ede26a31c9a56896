/** Cutting a long text into messages of limited length at preferred break strings. */
module SplitMessage {

  /** `breaker` occurs in `text` at index i. */
  predicate OccursAt(text: string, breaker: string, i: int) {
    0 <= i && i + |breaker| <= |text| && text[i..i + |breaker|] == breaker
  }

  /** Python's rfind: the last index of an occurrence, -1 if there is none. */
  function RFind(text: string, breaker: string): (i: int)
    ensures i == -1 || 0 <= i <= |text| - |breaker|
  {
    if |breaker| > |text| then -1 else RFindFrom(text, breaker, |text| - |breaker|)
  }

  function RFindFrom(text: string, breaker: string, from: nat): (i: int)
    requires from + |breaker| <= |text|
    ensures -1 <= i <= from
    decreases from
  {
    if text[from..from + |breaker|] == breaker then from
    else if from == 0 then -1
    else RFindFrom(text, breaker, from - 1)
  }

  lemma RFindIsLast(text: string, breaker: string)
    ensures var i := RFind(text, breaker);
      && (i == -1 || OccursAt(text, breaker, i))
      && forall j :: OccursAt(text, breaker, j) ==> j <= i
  {
    if |breaker| <= |text| {
      RFindFromIsLast(text, breaker, |text| - |breaker|);
    }
  }

  lemma {:induction false} RFindFromIsLast(text: string, breaker: string, from: nat)
    requires from + |breaker| <= |text|
    ensures var i := RFindFrom(text, breaker, from);
      && (i == -1 || OccursAt(text, breaker, i))
      && forall j :: j <= from && OccursAt(text, breaker, j) ==> j <= i
    decreases from
  {
    if text[from..from + |breaker|] != breaker && from > 0 {
      RFindFromIsLast(text, breaker, from - 1);
    }
  }

  /** Where to cut, and the break string that is dropped there. */
  datatype Cut = Cut(at: nat, dropped: string)

  /** The first listed break found past the start of the window, else a hard cut at its end. */
  function ChooseCut(window: string, breaks: seq<string>): (c: Cut)
  {
    if breaks == [] then Cut(|window|, "")
    else
      var at := RFind(window, breaks[0]);
      if at > 0 then Cut(at, breaks[0]) else ChooseCut(window, breaks[1..])
  }

  /** The pieces of a text and the strings dropped between them. */
  datatype Split = Split(pieces: seq<string>, dropped: seq<string>)

  /** The first cut of a text that is too long. */
  function FirstCut(text: string, limit: nat, breaks: seq<string>): (c: Cut)
    requires 0 < limit < |text|
    ensures 0 < c.at && c.at + |c.dropped| <= limit
  {
    CutBounds(text[..limit], breaks);
    ChooseCut(text[..limit], breaks)
  }

  function SplitText(text: string, limit: nat, breaks: seq<string>): (s: Split)
    requires limit > 0
    ensures |s.pieces| == |s.dropped| + 1
    decreases |text|
  {
    if |text| <= limit then Split([text], [])
    else
      var c := FirstCut(text, limit, breaks);
      var rest := SplitText(text[c.at + |c.dropped|..], limit, breaks);
      Split([text[..c.at]] + rest.pieces, [c.dropped] + rest.dropped)
  }

  lemma {:induction false} CutBounds(window: string, breaks: seq<string>)
    requires |window| > 0
    ensures var c := ChooseCut(window, breaks); 0 < c.at && c.at + |c.dropped| <= |window|
  {
    if breaks == [] {
    } else if RFind(window, breaks[0]) <= 0 {
      CutBounds(window, breaks[1..]);
    }
  }

  /** `breaker` occurs in the window at a positive index. */
  ghost predicate Usable(window: string, breaker: string) {
    exists i :: i > 0 && OccursAt(window, breaker, i)
  }

  /**
   The cut is at the last occurrence of the first listed break that occurs at a positive
   index; it is a hard cut exactly when no listed break does.
   */
  lemma {:induction false} CutChoice(window: string, breaks: seq<string>, k: nat)
    requires k <= |breaks| && forall j :: 0 <= j < k ==> !Usable(window, breaks[j])
    requires k < |breaks| ==> Usable(window, breaks[k])
    ensures var c := ChooseCut(window, breaks);
      if k == |breaks| then c == Cut(|window|, "")
      else c.dropped == breaks[k] && OccursAt(window, breaks[k], c.at)
           && forall i :: OccursAt(window, breaks[k], i) ==> i <= c.at
    decreases k
  {
    if breaks == [] {
    } else if k == 0 {
      assert Usable(window, breaks[0]);
      RFindIsLast(window, breaks[0]);
    } else {
      assert !Usable(window, breaks[0]);
      RFindIsLast(window, breaks[0]);
      CutChoice(window, breaks[1..], k - 1);
    }
  }

  /** The split text with the dropped strings put back. */
  function Rejoin(s: Split): string
    requires |s.pieces| == |s.dropped| + 1
    decreases |s.pieces|
  {
    if s.dropped == [] then s.pieces[0]
    else s.pieces[0] + s.dropped[0] + Rejoin(Split(s.pieces[1..], s.dropped[1..]))
  }

  lemma {:induction false} SplitRejoins(text: string, limit: nat, breaks: seq<string>)
    requires limit > 0
    ensures Rejoin(SplitText(text, limit, breaks)) == text
    decreases |text|
  {
    if |text| <= limit {
    } else {
      var c := FirstCut(text, limit, breaks);
      CutDropsWhatItNames(text[..limit], breaks);
      var next := text[c.at + |c.dropped|..];
      SplitRejoins(next, limit, breaks);
      var s := SplitText(text, limit, breaks);
      assert Split(s.pieces[1..], s.dropped[1..]) == SplitText(next, limit, breaks);
      CutText(text, limit, c);
    }
  }

  lemma CutText(text: string, limit: nat, c: Cut)
    requires limit <= |text| && c.at + |c.dropped| <= limit && OccursAt(text[..limit], c.dropped, c.at)
    ensures text == text[..c.at] + c.dropped + text[c.at + |c.dropped|..]
  {
    assert text[..limit][c.at..c.at + |c.dropped|] == text[c.at..c.at + |c.dropped|];
  }

  lemma {:induction false} CutDropsWhatItNames(window: string, breaks: seq<string>)
    requires |window| > 0
    ensures var c := ChooseCut(window, breaks); OccursAt(window, c.dropped, c.at)
  {
    if breaks == [] {
    } else {
      RFindIsLast(window, breaks[0]);
      if RFind(window, breaks[0]) <= 0 {
        CutDropsWhatItNames(window, breaks[1..]);
      }
    }
  }

  /** No piece exceeds the limit, and none is empty when the text had to be cut. */
  lemma {:induction false} PieceSizes(text: string, limit: nat, breaks: seq<string>)
    requires limit > 0
    ensures forall p :: p in SplitText(text, limit, breaks).pieces ==> |p| <= limit
    ensures |text| > 0 ==> forall p :: p in SplitText(text, limit, breaks).pieces ==> |p| > 0
    decreases |text|
  {
    if |text| <= limit {
    } else {
      var c := FirstCut(text, limit, breaks);
      PieceSizes(text[c.at + |c.dropped|..], limit, breaks);
    }
  }

  /** Every string dropped is empty or one of the listed breaks. */
  lemma {:induction false} DroppedAreBreaks(text: string, limit: nat, breaks: seq<string>)
    requires limit > 0
    ensures forall d :: d in SplitText(text, limit, breaks).dropped ==> d == "" || d in breaks
    decreases |text|
  {
    if |text| <= limit {
    } else {
      var c := FirstCut(text, limit, breaks);
      CutNamesABreak(text[..limit], breaks);
      DroppedAreBreaks(text[c.at + |c.dropped|..], limit, breaks);
    }
  }

  lemma {:induction false} CutNamesABreak(window: string, breaks: seq<string>)
    ensures var d := ChooseCut(window, breaks).dropped; d == "" || d in breaks
  {
    if breaks == [] {
    } else {
      CutNamesABreak(window, breaks[1..]);
    }
  }

  // What a split is, without saying how it is found.

  /** `breaker` is listed at place k, occurs past the start of the window, and none before it does. */
  ghost predicate FirstUsable(window: string, breaks: seq<string>, k: nat) {
    && k < |breaks| && Usable(window, breaks[k])
    && forall j :: 0 <= j < k ==> !Usable(window, breaks[j])
  }

  ghost predicate LastAt(window: string, breaker: string, at: nat) {
    OccursAt(window, breaker, at) && forall i :: OccursAt(window, breaker, i) ==> i <= at
  }

  /**
   A piece is cut from a text that is too long out of its first `limit` characters: at the last
   occurrence there of the first usable break, which is dropped, or at their end if none is usable.
   */
  ghost predicate IsCut(text: string, limit: nat, breaks: seq<string>, piece: string, dropped: string) {
    && |text| > limit && piece <= text[..limit]
    && if exists k: nat :: FirstUsable(text[..limit], breaks, k)
       then exists k: nat :: FirstUsable(text[..limit], breaks, k) && dropped == breaks[k]
                             && LastAt(text[..limit], dropped, |piece|)
       else dropped == "" && |piece| == limit
  }

  /** What has not been cut off yet before the k-th cut. */
  function Left(s: Split, k: nat): string
    requires |s.pieces| == |s.dropped| + 1 && k < |s.pieces|
  {
    Rejoin(Split(s.pieces[k..], s.dropped[k..]))
  }

  /** The pieces and dropped strings make up the text, every cut is right, and the rest fits. */
  ghost predicate IsSplit(s: Split, text: string, limit: nat, breaks: seq<string>) {
    && |s.pieces| == |s.dropped| + 1 && Rejoin(s) == text
    && (forall k :: 0 <= k < |s.dropped| ==> IsCut(Left(s, k), limit, breaks, s.pieces[k], s.dropped[k]))
    && |s.pieces[|s.dropped|]| <= limit
  }

  lemma {:induction false} SomeUsable(window: string, breaks: seq<string>, n: nat)
    requires n <= |breaks|
    ensures (exists k: nat :: FirstUsable(window, breaks, k)) || forall j :: 0 <= j < n ==> !Usable(window, breaks[j])
    decreases n
  {
    if n == 0 {
    } else {
      SomeUsable(window, breaks, n - 1);
      if (forall j :: 0 <= j < n - 1 ==> !Usable(window, breaks[j])) && Usable(window, breaks[n - 1]) {
        assert FirstUsable(window, breaks, n - 1);
      }
    }
  }

  lemma UsableOnce(window: string, breaks: seq<string>, k: nat, l: nat)
    requires FirstUsable(window, breaks, k) && FirstUsable(window, breaks, l)
    ensures k == l
  {
  }

  /** The first cut is such a cut, and the only one. */
  lemma FirstCutIff(text: string, limit: nat, breaks: seq<string>, piece: string, dropped: string)
    requires 0 < limit < |text|
    ensures var c := FirstCut(text, limit, breaks);
      IsCut(text, limit, breaks, piece, dropped) <==> piece == text[..c.at] && dropped == c.dropped
  {
    var window, c := text[..limit], FirstCut(text, limit, breaks);
    PrefixIs(window, piece, c.at);
    assert window[..c.at] == text[..c.at];
    if k: nat :| FirstUsable(window, breaks, k) {
      CutChoice(window, breaks, k);
      forall l: nat | FirstUsable(window, breaks, l) ensures l == k {
        UsableOnce(window, breaks, k, l);
      }
      assert LastAt(window, breaks[k], c.at);
      if piece == text[..c.at] && dropped == c.dropped {
        assert FirstUsable(window, breaks, k) && dropped == breaks[k] && LastAt(window, dropped, |piece|);
      }
    } else {
      SomeUsable(window, breaks, |breaks|);
      CutChoice(window, breaks, |breaks|);
    }
  }

  lemma PrefixIs(window: string, piece: string, at: nat)
    requires at <= |window|
    ensures piece <= window && |piece| == at <==> piece == window[..at]
  {
  }

  lemma LeftNext(s: Split, k: nat)
    requires |s.pieces| == |s.dropped| + 1 && 0 < k < |s.pieces|
    ensures Left(s, k) == Left(Split(s.pieces[1..], s.dropped[1..]), k - 1)
  {
    assert s.pieces[1..][k - 1..] == s.pieces[k..] && s.dropped[1..][k - 1..] == s.dropped[k..];
  }

  /** A split is a first cut and a split of what is left. */
  lemma IsSplitNext(s: Split, text: string, limit: nat, breaks: seq<string>)
    requires |s.pieces| == |s.dropped| + 1 && s.dropped != []
    ensures var rest := Split(s.pieces[1..], s.dropped[1..]);
      IsSplit(s, text, limit, breaks) <==>
        && text == s.pieces[0] + s.dropped[0] + Rejoin(rest)
        && IsCut(text, limit, breaks, s.pieces[0], s.dropped[0])
        && IsSplit(rest, Rejoin(rest), limit, breaks)
  {
    var rest := Split(s.pieces[1..], s.dropped[1..]);
    assert s.pieces[0..] == s.pieces && s.dropped[0..] == s.dropped;
    assert Left(s, 0) == Rejoin(s);
    forall k | 0 < k < |s.pieces| ensures Left(s, k) == Left(rest, k - 1) {
      LeftNext(s, k);
    }
    if IsSplit(s, text, limit, breaks) {
      forall k | 0 <= k < |rest.dropped|
        ensures IsCut(Left(rest, k), limit, breaks, rest.pieces[k], rest.dropped[k])
      {
        assert IsCut(Left(s, k + 1), limit, breaks, s.pieces[k + 1], s.dropped[k + 1]);
      }
    }
    if IsSplit(rest, Rejoin(rest), limit, breaks) && IsCut(Rejoin(s), limit, breaks, s.pieces[0], s.dropped[0]) {
      forall k | 0 <= k < |s.dropped|
        ensures IsCut(Left(s, k), limit, breaks, s.pieces[k], s.dropped[k])
      {
        if k > 0 {
          assert IsCut(Left(rest, k - 1), limit, breaks, rest.pieces[k - 1], rest.dropped[k - 1]);
        }
      }
    }
  }

  lemma AfterCut(text: string, at: nat, dropped: string, rest: string)
    requires at <= |text|
    ensures text == text[..at] + dropped + rest ==> at + |dropped| <= |text| && rest == text[at + |dropped|..]
  {
    if text == text[..at] + dropped + rest {
      assert (text[..at] + dropped + rest)[at + |dropped|..] == rest;
    }
  }

  lemma NoCut(s: Split, text: string, limit: nat, breaks: seq<string>)
    requires limit > 0 && |s.pieces| == |s.dropped| + 1 && (s.dropped == [] || |text| <= limit)
    ensures IsSplit(s, text, limit, breaks) <==> s == Split([text], []) && |text| <= limit
  {
    if s.dropped == [] {
      assert s.pieces == [s.pieces[0]];
    } else {
      assert s.pieces[0..] == s.pieces && s.dropped[0..] == s.dropped;
      assert Left(s, 0) == Rejoin(s);
    }
  }

  /** There is exactly one split of a text, and it is the one computed. */
  lemma {:induction false} SplitIff(s: Split, text: string, limit: nat, breaks: seq<string>)
    requires limit > 0
    ensures IsSplit(s, text, limit, breaks) <==> s == SplitText(text, limit, breaks)
    decreases |text|
  {
    if |s.pieces| != |s.dropped| + 1 {
    } else if s.dropped == [] || |text| <= limit {
      NoCut(s, text, limit, breaks);
    } else {
      var rest, c := Split(s.pieces[1..], s.dropped[1..]), FirstCut(text, limit, breaks);
      var next := text[c.at + |c.dropped|..];
      SplitIff(rest, next, limit, breaks);
      IsSplitNext(s, text, limit, breaks);
      FirstCutIff(text, limit, breaks, s.pieces[0], s.dropped[0]);
      AfterCut(text, c.at, c.dropped, Rejoin(rest));
      CutDropsWhatItNames(text[..limit], breaks);
      CutText(text, limit, c);
      SplitRejoins(next, limit, breaks);
      FirstOf(s, SplitText(text, limit, breaks));
    }
  }

  lemma FirstOf(s: Split, t: Split)
    requires s.pieces != [] && t.pieces != [] && s.dropped != [] && t.dropped != []
    ensures s == t <==> s.pieces[0] == t.pieces[0] && s.dropped[0] == t.dropped[0]
                        && s.pieces[1..] == t.pieces[1..] && s.dropped[1..] == t.dropped[1..]
  {
    assert s.pieces == [s.pieces[0]] + s.pieces[1..] && t.pieces == [t.pieces[0]] + t.pieces[1..];
    assert s.dropped == [s.dropped[0]] + s.dropped[1..] && t.dropped == [t.dropped[0]] + t.dropped[1..];
  }

  /** At least ceil(|text| / limit) messages are sent. */
  lemma {:induction false} PieceCount(text: string, limit: nat, breaks: seq<string>)
    requires limit > 0
    ensures |text| <= limit * |SplitText(text, limit, breaks).pieces|
    decreases |text|
  {
    if |text| <= limit {
    } else {
      var c := FirstCut(text, limit, breaks);
      var next := text[c.at + |c.dropped|..];
      PieceCount(next, limit, breaks);
      var n := |SplitText(next, limit, breaks).pieces|;
      assert |SplitText(text, limit, breaks).pieces| == n + 1;
      OneMore(limit, n);
    }
  }

  lemma OneMore(limit: nat, n: nat)
    ensures limit * (n + 1) == limit * n + limit
  {
  }

  lemma AppendPiece(messages: seq<string>, piece: string, rest: seq<string>)
    ensures messages + ([piece] + rest) == messages + [piece] + rest
  {
  }

  lemma SplitStep(text: string, limit: nat, breaks: seq<string>, next: string)
    requires 0 < limit < |text|
    requires var c := FirstCut(text, limit, breaks); next == text[c.at + |c.dropped|..]
    ensures SplitText(text, limit, breaks).pieces
         == [text[..FirstCut(text, limit, breaks).at]] + SplitText(next, limit, breaks).pieces
  {
  }

  /** Pieces that a split of the text has. */
  ghost predicate ArePieces(pieces: seq<string>, text: string, limit: nat, breaks: seq<string>) {
    exists dropped :: IsSplit(Split(pieces, dropped), text, limit, breaks)
  }

  lemma PiecesOfSplit(text: string, limit: nat, breaks: seq<string>)
    requires limit > 0
    ensures ArePieces(SplitText(text, limit, breaks).pieces, text, limit, breaks)
  {
    var s := SplitText(text, limit, breaks);
    SplitIff(s, text, limit, breaks);
    assert s == Split(s.pieces, s.dropped);
  }

  /** The loop, which shortens `text` until it fits. */
  method SplitMessage(original: string, limit: nat, breaks: seq<string>) returns (messages: seq<string>)
    requires limit > 0
    ensures messages == SplitText(original, limit, breaks).pieces
    ensures ArePieces(messages, original, limit, breaks)
  {
    PiecesOfSplit(original, limit, breaks);
    if |original| <= limit {
      return [original];
    }
    var text := original;
    messages := [];
    while |text| > limit
      invariant messages + SplitText(text, limit, breaks).pieces == SplitText(original, limit, breaks).pieces
      decreases |text|
    {
      var t := text[..limit];
      ghost var chosen := ChooseCut(t, breaks);
      assert breaks[0..] == breaks;
      var tSplit, splitter := -1, "";
      var i := 0;
      while i < |breaks|
        invariant 0 <= i <= |breaks|
        invariant tSplit <= 0 && ChooseCut(t, breaks[i..]) == chosen
      {
        splitter := breaks[i];
        tSplit := RFind(t, splitter);
        if tSplit > 0 {
          break;
        }
        assert breaks[i..][1..] == breaks[i + 1..];
        i := i + 1;
      }
      if tSplit <= 0 {
        tSplit, splitter := limit, "";
      }
      assert Cut(tSplit, splitter) == FirstCut(text, limit, breaks);
      var piece, next := text[..tSplit], text[tSplit + |splitter|..];
      SplitStep(text, limit, breaks, next);
      AppendPiece(messages, piece, SplitText(next, limit, breaks).pieces);
      messages := messages + [piece];
      text := next;
    }
    messages := messages + [text];
  }

  /** With no room at all a cut removes nothing, so the loop could not end. */
  lemma NoLimitNoProgress(text: string, breaks: seq<string>)
    ensures ChooseCut(text[..0], breaks) == Cut(0, "")
  {
    if breaks != [] {
      NoLimitNoProgress(text, breaks[1..]);
    }
  }
}
