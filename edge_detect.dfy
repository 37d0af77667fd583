/**
 * Press-edge detection, the comparison the callback in `main`
 * (src/application.cpp) makes between the new snapshot and the previous one.
 * Sixteen buttons are compared; the PS button and the analog values are not.
 */
module EdgeDetect {
  import opened Report

  /** The buttons whose presses the callback announces. */
  datatype Button =
    | Left | Right | Up | Down | Start | Select
    | LeftOne | RightOne | LeftTwo | RightTwo | LeftThree | RightThree
    | Triangle | Circle | Cross | Square

  /** Whether button `b` is down in snapshot `p`. */
  function Pressed(p: Ps3, b: Button): bool {
    match b
    case Left => p.left
    case Right => p.right
    case Up => p.up
    case Down => p.down
    case Start => p.start
    case Select => p.select
    case LeftOne => p.leftOne
    case RightOne => p.rightOne
    case LeftTwo => p.leftTwo
    case RightTwo => p.rightTwo
    case LeftThree => p.leftThree
    case RightThree => p.rightThree
    case Triangle => p.triangle
    case Circle => p.circle
    case Cross => p.cross
    case Square => p.square
  }

  /** Every button, in the order in which the callback tests and announces them. */
  const AllButtons: seq<Button> :=
    [Left, Right, Up, Down, Start, Select, LeftOne, RightOne,
     LeftTwo, RightTwo, LeftThree, RightThree, Triangle, Circle, Cross, Square]

  predicate Distinct<T(==)>(s: seq<T>) {
    forall i, j :: 0 <= i < j < |s| ==> s[i] != s[j]
  }

  lemma AllButtonsDistinct()
    ensures Distinct(AllButtons)
  {
  }

  lemma AllButtonsComplete()
    ensures forall b: Button :: b in AllButtons
  {
    forall b: Button ensures b in AllButtons {
      match b
      case Left => assert AllButtons[0] == b;
      case Right => assert AllButtons[1] == b;
      case Up => assert AllButtons[2] == b;
      case Down => assert AllButtons[3] == b;
      case Start => assert AllButtons[4] == b;
      case Select => assert AllButtons[5] == b;
      case LeftOne => assert AllButtons[6] == b;
      case RightOne => assert AllButtons[7] == b;
      case LeftTwo => assert AllButtons[8] == b;
      case RightTwo => assert AllButtons[9] == b;
      case LeftThree => assert AllButtons[10] == b;
      case RightThree => assert AllButtons[11] == b;
      case Triangle => assert AllButtons[12] == b;
      case Circle => assert AllButtons[13] == b;
      case Cross => assert AllButtons[14] == b;
      case Square => assert AllButtons[15] == b;
    }
  }

  /** The buttons of `bs`, in order, that are down in `now` and were up in `before`. */
  function EdgesIn(bs: seq<Button>, before: Ps3, now: Ps3): seq<Button>
    decreases |bs|
  {
    if bs == [] then []
    else
      var last := bs[|bs| - 1];
      EdgesIn(bs[..|bs| - 1], before, now)
      + (if Pressed(now, last) && !Pressed(before, last) then [last] else [])
  }

  lemma {:induction false} EdgesInMembers(bs: seq<Button>, before: Ps3, now: Ps3)
    ensures forall b :: b in EdgesIn(bs, before, now) <==> b in bs && Pressed(now, b) && !Pressed(before, b)
    ensures Distinct(bs) ==> Distinct(EdgesIn(bs, before, now))
    decreases |bs|
  {
    if bs != [] {
      var init := bs[..|bs| - 1];
      EdgesInMembers(init, before, now);
      assert bs == init + [bs[|bs| - 1]];
    }
  }

  /** Extending the compared buttons by one adds at most that button. */
  lemma EdgesInExtend(bs: seq<Button>, i: nat, before: Ps3, now: Ps3)
    requires i < |bs|
    ensures EdgesIn(bs[..i + 1], before, now) == EdgesIn(bs[..i], before, now)
      + (if Pressed(now, bs[i]) && !Pressed(before, bs[i]) then [bs[i]] else [])
  {
    assert bs[..i + 1][..i] == bs[..i];
  }

  /**
   * The press edges between two consecutive snapshots: a button is reported
   * exactly when it is down now and was up before, and then exactly once.
   */
  function Edges(before: Ps3, now: Ps3): (r: seq<Button>)
    ensures forall b :: b in r <==> Pressed(now, b) && !Pressed(before, b)
    ensures Distinct(r)
  {
    AllButtonsComplete();
    AllButtonsDistinct();
    EdgesInMembers(AllButtons, before, now);
    EdgesIn(AllButtons, before, now)
  }

  /** A button held down, or left up, or let go, is not an edge. */
  lemma NoEdgeWithoutPress(before: Ps3, now: Ps3, b: Button)
    requires !Pressed(now, b) || Pressed(before, b)
    ensures b !in Edges(before, now)
  {
  }

  lemma {:induction false} RepeatedSnapshotEdgesIn(bs: seq<Button>, p: Ps3)
    ensures EdgesIn(bs, p, p) == []
    decreases |bs|
  {
    if bs != [] {
      RepeatedSnapshotEdgesIn(bs[..|bs| - 1], p);
    }
  }

  /** A snapshot repeated unchanged (a button held) produces no edge at all. */
  lemma RepeatedSnapshotNoEdges(p: Ps3)
    ensures Edges(p, p) == []
  {
    RepeatedSnapshotEdgesIn(AllButtons, p);
  }

  /** Against the all-up initial snapshot, every button pressed is an edge. */
  lemma FirstSnapshotEdges(now: Ps3)
    ensures forall b :: b in Edges(Released, now) <==> Pressed(now, b)
  {
  }

  /** Two snapshots agree on the sixteen buttons compared (the PS button and the numbers may differ). */
  predicate SameButtons(p: Ps3, q: Ps3) {
    p.left == q.left && p.right == q.right && p.up == q.up && p.down == q.down &&
    p.start == q.start && p.select == q.select &&
    p.leftOne == q.leftOne && p.rightOne == q.rightOne &&
    p.leftTwo == q.leftTwo && p.rightTwo == q.rightTwo &&
    p.leftThree == q.leftThree && p.rightThree == q.rightThree &&
    p.triangle == q.triangle && p.circle == q.circle && p.cross == q.cross && p.square == q.square
  }

  lemma SameButtonsPressed(p: Ps3, q: Ps3, b: Button)
    requires SameButtons(p, q)
    ensures Pressed(p, b) == Pressed(q, b)
  {
    match b
    case Left =>
    case Right =>
    case Up =>
    case Down =>
    case Start =>
    case Select =>
    case LeftOne =>
    case RightOne =>
    case LeftTwo =>
    case RightTwo =>
    case LeftThree =>
    case RightThree =>
    case Triangle =>
    case Circle =>
    case Cross =>
    case Square =>
  }

  lemma {:induction false} EdgesInAgree(bs: seq<Button>, b1: Ps3, n1: Ps3, b2: Ps3, n2: Ps3)
    requires SameButtons(b1, b2) && SameButtons(n1, n2)
    ensures EdgesIn(bs, b1, n1) == EdgesIn(bs, b2, n2)
    decreases |bs|
  {
    if bs != [] {
      var last := bs[|bs| - 1];
      EdgesInAgree(bs[..|bs| - 1], b1, n1, b2, n2);
      SameButtonsPressed(b1, b2, last);
      SameButtonsPressed(n1, n2, last);
    }
  }

  /**
   * The PS button and the analog values take no part in edge detection:
   * snapshots that agree on the sixteen buttons have the same edges.
   */
  lemma EdgesIgnoreNonButtons(before: Ps3, now: Ps3, before': Ps3, now': Ps3)
    requires SameButtons(before, before') && SameButtons(now, now')
    ensures Edges(before, now) == Edges(before', now')
  {
    EdgesInAgree(AllButtons, before, now, before', now');
  }
}
