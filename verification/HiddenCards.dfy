/**
  What the match-state text of modules/core/src/game.c gives away: nothing about the hole cards of others, but for those
  still in at a showdown, and those for certain.
 */
module HiddenCards {
  import opened Betting
  import opened Hands
  import opened StateText
  import opened TextRoundTrip

  /** The hand is over, the player has not folded, and somebody else has not either. */
  predicate AtShowdown(h: Hand, p: nat) {
    h.finished && p < |h.folded| && !h.folded[p] && exists q :: 0 <= q < |h.folded| && q != p && !h.folded[q]
  }

  /** A player's cards are for the viewer's eyes if they are his, or at the showdown. */
  predicate ForViewer(ms: MatchState, p: nat) {
    p == ms.viewer || AtShowdown(ms.hand, p)
  }

  lemma {:induction false} FoldedAtMost(h: Hand, n: nat, p: nat)
    requires p < n <= |h.folded| && !h.folded[p]
    ensures |FoldedBelow(h, n)| + 1 <= n
    ensures |FoldedBelow(h, n)| + 1 == n <==> forall q :: 0 <= q < n && q != p ==> h.folded[q]
  {
    var m := n - 1;
    assert FoldedBelow(h, n) == if h.folded[m] then FoldedBelow(h, m) + {m} else FoldedBelow(h, m);
    if p < m {
      FoldedAtMost(h, m, p);
    } else {
      AllFoldedAtMost(h, m);
    }
  }

  lemma {:induction false} AllFoldedAtMost(h: Hand, n: nat)
    requires n <= |h.folded|
    ensures |FoldedBelow(h, n)| <= n
    ensures |FoldedBelow(h, n)| == n <==> forall q :: 0 <= q < n ==> h.folded[q]
  {
    if n == 0 {
      assert FoldedBelow(h, 0) == {};
    } else {
      var m := n - 1;
      assert FoldedBelow(h, n) == if h.folded[m] then FoldedBelow(h, m) + {m} else FoldedBelow(h, m);
      AllFoldedAtMost(h, m);
    }
  }

  lemma ShownIsForViewer(f: Format, ms: MatchState, p: nat)
    requires f.Valid() && ms.hand.Shape(f.game) && p < f.game.numPlayers
    ensures Shown(f, ms, p) <==> ForViewer(ms, p)
  {
    var h := ms.hand;
    if !h.folded[p] {
      FoldedAtMost(h, |h.folded|, p);
    }
  }

  lemma {:induction false} SameHoleText(f: Format, a: MatchState, b: MatchState, p: nat)
    requires f.Valid() && p <= f.game.numPlayers == |a.holeCards| == |b.holeCards|
    requires forall q: nat :: p <= q < f.game.numPlayers ==>
      (Shown(f, a, q) <==> Shown(f, b, q)) && (Shown(f, a, q) ==> a.holeCards[q] == b.holeCards[q])
    ensures PrintHoleCards(f, a, p) == PrintHoleCards(f, b, p)
    decreases f.game.numPlayers - p
  {
    hide Shown;
    if p < f.game.numPlayers { SameHoleText(f, a, b, p + 1); }
  }

  /** Match states that differ only in cards that are not for the viewer have the same text. */
  lemma OthersCardsAreHidden(f: Format, a: MatchState, b: MatchState)
    requires f.Valid() && a.hand.Shape(f.game) && |a.holeCards| == |b.holeCards| == f.game.numPlayers
    requires b.(holeCards := a.holeCards) == a
    requires forall p: nat :: p < f.game.numPlayers && ForViewer(a, p) ==> a.holeCards[p] == b.holeCards[p]
    ensures PrintMatchState(f, a) == PrintMatchState(f, b)
  {
    forall q: nat | q < f.game.numPlayers
      ensures (Shown(f, a, q) <==> Shown(f, b, q)) && (Shown(f, a, q) ==> a.holeCards[q] == b.holeCards[q])
    {
      ShownIsForViewer(f, a, q);
      ShownIsForViewer(f, b, q);
    }
    SameHoleText(f, a, b, 0);
  }

  /** Cards that are for the viewer come back from the text, the others come back unknown. */
  lemma ViewersCardsComeBack(f: Format, ms: MatchState, r: Run, rest: string)
    requires Reached(f, ms, r) && Readable(f, ms) && (rest == [] || rest[0] == ':')
    ensures ms.hand.Shape(f.game) && ReadMatchState(f, PrintMatchState(f, ms) + rest).Got?
    ensures var hole := ReadMatchState(f, PrintMatchState(f, ms) + rest).value.holeCards;
      |hole| == f.game.numPlayers == |ms.holeCards| && forall p: nat :: p < f.game.numPlayers ==>
        hole[p] == if ForViewer(ms, p) then ms.holeCards[p] else Unknown(f.numHoleCards)
  {
    hide ReadMatchState, PrintMatchState, Run.Valid;
    PrintedStateReads(f, ms, r, rest);
    var hole := Seen(f, ms, 0);
    forall p: nat | p < f.game.numPlayers
      ensures hole[p] == if ForViewer(ms, p) then ms.holeCards[p] else Unknown(f.numHoleCards)
    {
      ShownIsForViewer(f, ms, p);
      assert hole[p - 0] == if Shown(f, ms, p) then ms.holeCards[p] else Unknown(f.numHoleCards);
    }
  }
}
