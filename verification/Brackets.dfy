/** The check that a Solidity snippet is closed (chisel/src/solidity_helper.rs): one saturating depth
    counter for each kind of bracket. */
module Brackets {
  import opened Bytes

  datatype Kind = Square | Curly | Round

  datatype Token = Open(kind: Kind) | Close(kind: Kind) | OtherToken

  function Delta(t: Token, kind: Kind): (d: int)
  {
    if t == Open(kind) then 1 else if t == Close(kind) then -1 else 0
  }

  /** Openers minus closers. */
  function Excess(ts: seq<Token>, kind: Kind): (e: int)
  {
    if ts == [] then 0 else Excess(ts[..|ts| - 1], kind) + Delta(ts[|ts| - 1], kind)
  }

  /** The counter after reading the tokens: a closer at zero leaves it at zero. */
  function Depth(ts: seq<Token>, kind: Kind): (d: nat)
  {
    if ts == [] then 0
    else
      var d := Depth(ts[..|ts| - 1], kind) + Delta(ts[|ts| - 1], kind);
      if d < 0 then 0 else d
  }

  lemma ExcessSuffixSnoc(ts: seq<Token>, kind: Kind, i: nat)
    requires i < |ts|
    ensures Excess(ts[i..], kind) == Excess(ts[..|ts| - 1][i..], kind) + Delta(ts[|ts| - 1], kind)
  {
    assert ts[i..][..|ts[i..]| - 1] == ts[..|ts| - 1][i..];
  }

  /** The counter is the largest excess of openers over closers in any suffix. */
  lemma {:induction false} DepthIsMaxSuffixExcess(ts: seq<Token>, kind: Kind)
    ensures forall i :: 0 <= i <= |ts| ==> Excess(ts[i..], kind) <= Depth(ts, kind)
    ensures exists i :: 0 <= i <= |ts| && Excess(ts[i..], kind) == Depth(ts, kind)
  {
    assert ts[|ts|..] == [];
    if ts == [] {
      assert Excess(ts[0..], kind) == Depth(ts, kind);
    } else {
      var init := ts[..|ts| - 1];
      DepthIsMaxSuffixExcess(init, kind);
      forall i | 0 <= i <= |ts| ensures Excess(ts[i..], kind) <= Depth(ts, kind) {
        if i < |ts| { ExcessSuffixSnoc(ts, kind, i); }
      }
      var k :| 0 <= k <= |init| && Excess(init[k..], kind) == Depth(init, kind);
      ExcessSuffixSnoc(ts, kind, k);
      assert Excess(ts[k..], kind) == Depth(ts, kind) || Excess(ts[|ts|..], kind) == Depth(ts, kind);
    }
  }

  /** Every suffix has at least as many closers as openers. */
  ghost predicate SuffixesClosed(ts: seq<Token>, kind: Kind) {
    forall i :: 0 <= i <= |ts| ==> Excess(ts[i..], kind) <= 0
  }

  lemma DepthZeroIff(ts: seq<Token>, kind: Kind)
    ensures Depth(ts, kind) == 0 <==> SuffixesClosed(ts, kind)
  {
    DepthIsMaxSuffixExcess(ts, kind);
  }

  lemma EveryKind(ts: seq<Token>)
    ensures (forall kind :: SuffixesClosed(ts, kind)) <==>
            SuffixesClosed(ts, Square) && SuffixesClosed(ts, Curly) && SuffixesClosed(ts, Round)
  {
    if SuffixesClosed(ts, Square) && SuffixesClosed(ts, Curly) && SuffixesClosed(ts, Round) {
      forall kind ensures SuffixesClosed(ts, kind) {
        match kind {
          case Square =>
          case Curly =>
          case Round =>
        }
      }
    }
  }

  /** Reads the tokens once, left to right; valid exactly when every suffix is closed for every kind. */
  method ValidateClosed(ts: seq<Token>) returns (valid: bool)
    ensures valid <==> forall kind :: SuffixesClosed(ts, kind)
  {
    var square, curly, round := 0, 0, 0;
    for i := 0 to |ts|
      invariant square == Depth(ts[..i], Square)
      invariant curly == Depth(ts[..i], Curly)
      invariant round == Depth(ts[..i], Round)
    {
      assert ts[..i + 1][..i] == ts[..i];
      match ts[i] {
        case Open(Square) => square := square + 1;
        case Open(Curly) => curly := curly + 1;
        case Open(Round) => round := round + 1;
        case Close(Square) => square := if square > 0 then square - 1 else 0;
        case Close(Curly) => curly := if curly > 0 then curly - 1 else 0;
        case Close(Round) => round := if round > 0 then round - 1 else 0;
        case OtherToken =>
      }
    }
    assert ts[..|ts|] == ts;
    valid := square == 0 && curly == 0 && round == 0;
    DepthZeroIff(ts, Square);
    DepthZeroIff(ts, Curly);
    DepthZeroIff(ts, Round);
    EveryKind(ts);
  }

  // ----- compared with counting each kind alone -----

  /** No closer comes before its opener. */
  ghost predicate PrefixesOpen(ts: seq<Token>, kind: Kind) {
    forall i :: 0 <= i <= |ts| ==> Excess(ts[..i], kind) >= 0
  }

  /** Brackets of this kind pair up, whatever the other kinds do. */
  ghost predicate Matched(ts: seq<Token>, kind: Kind) {
    Excess(ts, kind) == 0 && PrefixesOpen(ts, kind)
  }

  lemma {:induction false} ExcessSplits(ts: seq<Token>, kind: Kind, i: nat)
    requires i <= |ts|
    ensures Excess(ts, kind) == Excess(ts[..i], kind) + Excess(ts[i..], kind)
  {
    if i == |ts| {
      assert ts[..i] == ts && ts[i..] == [];
    } else {
      var init := ts[..|ts| - 1];
      ExcessSplits(init, kind, i);
      ExcessSuffixSnoc(ts, kind, i);
      assert init[..i] == ts[..i];
    }
  }

  /** Looking at one kind alone, its brackets pair up exactly when the check passes for it and none
      closes too early. */
  lemma MatchedIff(ts: seq<Token>, kind: Kind)
    ensures Matched(ts, kind) <==> SuffixesClosed(ts, kind) && PrefixesOpen(ts, kind)
  {
    assert ts[0..] == ts && ts[..|ts|] == ts;
    forall i | 0 <= i <= |ts| ensures Excess(ts, kind) == Excess(ts[..i], kind) + Excess(ts[i..], kind) {
      ExcessSplits(ts, kind, i);
    }
    if SuffixesClosed(ts, kind) && PrefixesOpen(ts, kind) {
      assert Excess(ts[0..], kind) <= 0 && Excess(ts[..|ts|], kind) >= 0;
    }
  }

  // ----- compared with proper nesting -----

  /** Brackets still open, innermost last, and whether every closer so far closed the innermost. */
  datatype Nesting = Nesting(ok: bool, open: seq<Kind>)

  function Scan(ts: seq<Token>): (n: Nesting)
  {
    if ts == [] then Nesting(true, [])
    else Shift(Scan(ts[..|ts| - 1]), ts[|ts| - 1])
  }

  function Shift(n: Nesting, t: Token): (m: Nesting)
  {
    match t
    case OtherToken => n
    case Open(kind) => n.(open := n.open + [kind])
    case Close(kind) =>
      if n.open != [] && n.open[|n.open| - 1] == kind then n.(open := n.open[..|n.open| - 1])
      else n.(ok := false)
  }

  /** All brackets are matched: each closer closes the innermost open bracket, and none stays open. */
  predicate Nested(ts: seq<Token>) {
    Scan(ts) == Nesting(true, [])
  }

  function Count(open: seq<Kind>, kind: Kind): (n: nat)
  {
    if open == [] then 0
    else Count(open[..|open| - 1], kind) + if open[|open| - 1] == kind then 1 else 0
  }

  lemma ShiftCounts(n: Nesting, t: Token, kind: Kind)
    requires n.ok && Shift(n, t).ok
    ensures Count(Shift(n, t).open, kind) == Count(n.open, kind) + Delta(t, kind)
  {
    if t.Open? { assert (n.open + [t.kind])[..|n.open|] == n.open; }
  }

  lemma {:induction false} DepthCountsOpen(ts: seq<Token>, kind: Kind)
    requires Scan(ts).ok
    ensures Depth(ts, kind) == Count(Scan(ts).open, kind)
  {
    if ts != [] {
      DepthCountsOpen(ts[..|ts| - 1], kind);
      ShiftCounts(Scan(ts[..|ts| - 1]), ts[|ts| - 1], kind);
    }
  }

  /** A snippet is properly nested exactly when it passes the check and each of its closers closes the
      innermost open bracket. So every nested snippet is accepted, and an accepted one is wrong
      exactly when some closer meets no bracket or one of another kind. */
  lemma NestedIff(ts: seq<Token>)
    ensures Nested(ts) <==> Scan(ts).ok && forall kind :: SuffixesClosed(ts, kind)
  {
    if Scan(ts).ok {
      var open := Scan(ts).open;
      forall kind ensures SuffixesClosed(ts, kind) <==> Count(open, kind) == 0 {
        DepthZeroIff(ts, kind);
        DepthCountsOpen(ts, kind);
      }
      assert open != [] ==> Count(open, open[|open| - 1]) > 0;
    }
  }

  /** Nested snippets by their grammar: other tokens and bracketed groups in a row. */
  datatype Snippet = Empty | Plain(before: Snippet) | Group(before: Snippet, kind: Kind, inside: Snippet)

  function Tokens(s: Snippet): (ts: seq<Token>)
  {
    match s
    case Empty => []
    case Plain(before) => Tokens(before) + [OtherToken]
    case Group(before, kind, inside) => Tokens(before) + [Open(kind)] + Tokens(inside) + [Close(kind)]
  }

  lemma ScanSnoc(ts: seq<Token>, t: Token)
    ensures Scan(ts + [t]) == Shift(Scan(ts), t)
  {
    assert (ts + [t])[..|ts|] == ts;
  }

  /** Reading a snippet of the grammar leaves the open brackets as they were. */
  lemma {:induction false} SnippetIsNeutral(ts: seq<Token>, s: Snippet)
    ensures Scan(ts + Tokens(s)) == Scan(ts)
    decreases s
  {
    match s {
      case Empty =>
        assert ts + [] == ts;
      case Plain(before) =>
        SnippetIsNeutral(ts, before);
        assert ts + Tokens(s) == (ts + Tokens(before)) + [OtherToken];
        ScanSnoc(ts + Tokens(before), OtherToken);
      case Group(before, kind, inside) =>
        var t1 := ts + Tokens(before);
        var t2 := t1 + [Open(kind)];
        var t3 := t2 + Tokens(inside);
        assert ts + Tokens(s) == t3 + [Close(kind)];
        SnippetIsNeutral(ts, before);
        ScanSnoc(t1, Open(kind));
        SnippetIsNeutral(t2, inside);
        ScanSnoc(t3, Close(kind));
        assert Scan(t2).open[..|Scan(t2).open| - 1] == Scan(ts).open;
    }
  }

  /** Snippets with one unclosed bracket between any two. */
  function Unclosed(snippets: seq<Snippet>, open: seq<Kind>): (ts: seq<Token>)
    requires |snippets| == |open| + 1
  {
    var n := |open|;
    if n == 0 then Tokens(snippets[0])
    else Unclosed(snippets[..n], open[..n - 1]) + [Open(open[n - 1])] + Tokens(snippets[n])
  }

  /** Tokens scanned without a mismatch are snippets of the grammar with the open brackets between. */
  lemma {:induction false} ScannedIsUnclosed(ts: seq<Token>) returns (snippets: seq<Snippet>)
    requires Scan(ts).ok
    ensures |snippets| == |Scan(ts).open| + 1 && Unclosed(snippets, Scan(ts).open) == ts
    decreases |ts|
  {
    if ts == [] {
      snippets := [Empty];
    } else {
      var init, t := ts[..|ts| - 1], ts[|ts| - 1];
      assert ts == init + [t];
      snippets := ScannedIsUnclosed(init);
      var open := Scan(init).open;
      var n := |open|;
      match t {
        case OtherToken =>
          AppendLast(snippets, open, Plain(snippets[n]), [OtherToken]);
          snippets := snippets[..n] + [Plain(snippets[n])];
        case Open(kind) =>
          assert (snippets + [Empty])[..n + 1] == snippets && (open + [kind])[..n] == open;
          assert init + [t] + [] == init + [t];
          snippets := snippets + [Empty];
        case Close(kind) =>
          var group := Group(snippets[n - 1], kind, snippets[n]);
          CloseLast(snippets, open, kind);
          snippets := snippets[..n - 1] + [group];
      }
    }
  }

  lemma {:induction false} AppendLast(snippets: seq<Snippet>, open: seq<Kind>, last: Snippet, more: seq<Token>)
    requires |snippets| == |open| + 1 && Tokens(last) == Tokens(snippets[|open|]) + more
    ensures Unclosed(snippets[..|open|] + [last], open) == Unclosed(snippets, open) + more
  {
    var n := |open|;
    var changed := snippets[..n] + [last];
    assert changed[..n] == snippets[..n] && changed[n] == last;
    if n > 0 {
      var front := Unclosed(snippets[..n], open[..n - 1]) + [Open(open[n - 1])];
      Assoc(front, Tokens(snippets[n]), more);
    }
  }

  lemma {:induction false} CloseLast(snippets: seq<Snippet>, open: seq<Kind>, kind: Kind)
    requires |snippets| == |open| + 1 && open != [] && open[|open| - 1] == kind
    ensures var n := |open|;
            Unclosed(snippets[..n - 1] + [Group(snippets[n - 1], kind, snippets[n])], open[..n - 1]) ==
            Unclosed(snippets, open) + [Close(kind)]
  {
    var n := |open|;
    var group := Group(snippets[n - 1], kind, snippets[n]);
    var more := [Open(kind)] + Tokens(snippets[n]) + [Close(kind)];
    assert Tokens(group) == Tokens(snippets[n - 1]) + more;
    AppendLast(snippets[..n], open[..n - 1], group, more);
    assert snippets[..n][..n - 1] == snippets[..n - 1];
    var front := Unclosed(snippets[..n], open[..n - 1]);
    assert front + more == (front + [Open(kind)] + Tokens(snippets[n])) + [Close(kind)];
  }

  /** The stack scan accepts exactly the snippets of the grammar. */
  lemma NestedIsGrammar(ts: seq<Token>)
    ensures Nested(ts) <==> exists s :: Tokens(s) == ts
  {
    if Nested(ts) {
      var snippets := ScannedIsUnclosed(ts);
      assert Tokens(snippets[0]) == ts;
    }
    if s :| Tokens(s) == ts {
      SnippetIsNeutral([], s);
      assert [] + ts == ts;
    }
  }

  /** A lone closer is accepted although nothing matches it. */
  lemma AcceptedNeedNotMatch()
    ensures SuffixesClosed([Close(Round)], Round) && !Matched([Close(Round)], Round)
  {
    var ts := [Close(Round)];
    assert ts[..0] == [] && ts[0..] == ts && ts[1..] == [];
    assert Excess(ts, Round) == -1;
  }

  /** Crossed brackets are accepted although every kind pairs up on its own. */
  lemma AcceptedNeedNotNest()
    ensures var ts := [Open(Round), Open(Square), Close(Round), Close(Square)];
            (forall kind :: SuffixesClosed(ts, kind) && Matched(ts, kind)) && !Nested(ts)
  {
    var t1 := [Open(Round)];
    var t2 := t1 + [Open(Square)];
    var t3 := t2 + [Close(Round)];
    var ts := t3 + [Close(Square)];
    assert ts == [Open(Round), Open(Square), Close(Round), Close(Square)];
    ScanSnoc([], Open(Round));
    assert [] + [Open(Round)] == t1;
    ScanSnoc(t1, Open(Square));
    ScanSnoc(t2, Close(Round));
    ScanSnoc(t3, Close(Square));
    forall kind ensures SuffixesClosed(ts, kind) && Matched(ts, kind) {
      CrossedCounts(kind);
      DepthZeroIff(ts, kind);
      MatchedIff(ts, kind);
    }
  }

  lemma CrossedCounts(kind: Kind)
    ensures var ts := [Open(Round), Open(Square), Close(Round), Close(Square)];
            Depth(ts, kind) == 0 && PrefixesOpen(ts, kind)
  {
    var ts := [Open(Round), Open(Square), Close(Round), Close(Square)];
    var t1, t2, t3 := [Open(Round)], [Open(Round), Open(Square)], [Open(Round), Open(Square), Close(Round)];
    assert ts[..0] == [] && ts[..1] == t1 && ts[..2] == t2 && ts[..3] == t3 && ts[..4] == ts;
    assert t1[..0] == [] && t2[..1] == t1 && t3[..2] == t2;
    assert Depth(t1, kind) == Excess(t1, kind) && Depth(t2, kind) == Excess(t2, kind);
    assert Depth(t3, kind) == Excess(t3, kind) && Depth(ts, kind) == Excess(ts, kind);
  }
}
