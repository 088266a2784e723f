/**
 * The replacement policy of the cache simulator, on values.
 *
 * A set of the simulated cache is a doubly linked list of E lines between a
 * head and a tail sentinel, most recently used first.  Here that list is the
 * sequence of its lines in list order: index 0 is `head->next`, the last index
 * is `tail->prev`.  The functions below are what one access does to one set;
 * the class in module Csim performs them in place and is proved against them.
 */
module Lru {

  datatype Option<T> = None | Some(value: T)

  /** A cache line; the data block the simulator allocates is never read, so it is not modelled. */
  datatype Line = Line(valid: bool, tag: int)

  /** What one access amounts to: a hit, a miss filling an invalid line, or a miss evicting the LRU line. */
  datatype Outcome = Hit | Miss | MissEvict

  /** The outcome of an access together with the set's new list. */
  datatype Touched = Touched(outcome: Outcome, lines: seq<Line>)

  /** A line answers a lookup for `tag` when it is valid and carries that tag. */
  predicate Holds(line: Line, tag: int) {
    line.valid && line.tag == tag
  }

  /** No two valid lines of the set carry the same tag. */
  predicate UniqueTags(lines: seq<Line>) {
    forall i, j :: 0 <= i < j < |lines| && lines[i].valid && lines[j].valid ==> lines[i].tag != lines[j].tag
  }

  /** The number of valid lines in the set. */
  function ValidCount(lines: seq<Line>): nat {
    if lines == [] then 0 else (if lines[0].valid then 1 else 0) + ValidCount(lines[1..])
  }

  /** The position of the first line, from the MRU end, that holds `tag`, if any. */
  function FirstHolding(lines: seq<Line>, tag: int): (r: Option<nat>)
    ensures r.Some? ==> r.value < |lines| && Holds(lines[r.value], tag)
    ensures r.Some? ==> forall j :: 0 <= j < r.value ==> !Holds(lines[j], tag)
    ensures r.None? <==> forall j :: 0 <= j < |lines| ==> !Holds(lines[j], tag)
  {
    if lines == [] then None
    else if Holds(lines[0], tag) then Some(0)
    else match FirstHolding(lines[1..], tag)
      case None => None
      case Some(i) => Some(i + 1)
  }

  /** The position of the first invalid line, from the MRU end, if any. */
  function FirstInvalid(lines: seq<Line>): (r: Option<nat>)
    ensures r.Some? ==> r.value < |lines| && !lines[r.value].valid
    ensures r.Some? ==> forall j :: 0 <= j < r.value ==> lines[j].valid
    ensures r.None? <==> forall j :: 0 <= j < |lines| ==> lines[j].valid
  {
    if lines == [] then None
    else if !lines[0].valid then Some(0)
    else match FirstInvalid(lines[1..])
      case None => None
      case Some(i) => Some(i + 1)
  }

  /**
   * Splicing line i out of the list and in again right after the head:
   * it becomes the first line and the others keep their relative order.
   */
  function MoveToFront(lines: seq<Line>, i: nat): (r: seq<Line>)
    requires i < |lines|
    ensures |r| == |lines| && r[0] == lines[i]
    ensures forall j :: 1 <= j <= i ==> r[j] == lines[j - 1]
    ensures forall j :: i < j < |lines| ==> r[j] == lines[j]
  {
    assert lines == lines[..i] + [lines[i]] + lines[i + 1..];
    [lines[i]] + lines[..i] + lines[i + 1..]
  }

  /**
   * One load of `tag` into a set: a hit moves the matching line to the front;
   * a miss fills the first invalid line, or, when every line is valid,
   * retags the last (least recently used) line, and moves it to the front.
   */
  function Touch(lines: seq<Line>, tag: int): (r: Touched)
    requires |lines| >= 1
    ensures |r.lines| == |lines| && r.lines[0] == Line(true, tag)
    ensures r.outcome == Hit <==> exists j :: 0 <= j < |lines| && Holds(lines[j], tag)
    ensures r.outcome == MissEvict <==>
      (forall j :: 0 <= j < |lines| ==> !Holds(lines[j], tag)) && (forall j :: 0 <= j < |lines| ==> lines[j].valid)
  {
    match FirstHolding(lines, tag)
    case Some(i) => Touched(Hit, MoveToFront(lines, i))
    case None =>
      match FirstInvalid(lines)
      case Some(i) => Touched(Miss, MoveToFront(lines[i := lines[i].(valid := true, tag := tag)], i))
      case None =>
        var last := |lines| - 1;
        Touched(MissEvict, MoveToFront(lines[last := lines[last].(tag := tag)], last))
  }

  /**
   * Which line a miss replaces: the first invalid line from the MRU end;
   * the other lines keep their order behind the new front.
   */
  lemma {:induction false} TouchFillsFirstInvalid(lines: seq<Line>, tag: int)
    requires |lines| >= 1 && Touch(lines, tag).outcome == Miss
    ensures FirstInvalid(lines).Some?
    ensures var i := FirstInvalid(lines).value;
      Touch(lines, tag).lines[1..] == lines[..i] + lines[i + 1..]
  {
    var i := FirstInvalid(lines).value;
    var u := lines[i := lines[i].(valid := true, tag := tag)];
    assert Touch(lines, tag).lines == MoveToFront(u, i) by {
      assert FirstHolding(lines, tag).None?;
    }
    MoveToFrontRest(u, i);
    assert u[..i] == lines[..i] && u[i + 1..] == lines[i + 1..];
  }

  /** Changing the moved line after the move is the same as changing it before. */
  lemma {:induction false} MoveToFrontUpdate(lines: seq<Line>, i: nat, l: Line)
    requires i < |lines|
    ensures MoveToFront(lines, i)[0 := l] == MoveToFront(lines[i := l], i)
  {
    var u := lines[i := l];
    assert u[..i] == lines[..i] && u[i + 1..] == lines[i + 1..];
  }

  lemma {:induction false} MoveToFrontRest(lines: seq<Line>, i: nat)
    requires i < |lines|
    ensures MoveToFront(lines, i)[1..] == lines[..i] + lines[i + 1..]
  {
    assert MoveToFront(lines, i) == [lines[i]] + (lines[..i] + lines[i + 1..]);
  }

  /** With no invalid line, the victim is the last, least recently used, line. */
  lemma {:induction false} TouchEvictsLast(lines: seq<Line>, tag: int)
    requires |lines| >= 1 && Touch(lines, tag).outcome == MissEvict
    ensures Touch(lines, tag).lines[1..] == lines[..|lines| - 1]
  {
    var last := |lines| - 1;
    var u := lines[last := lines[last].(tag := tag)];
    assert FirstInvalid(lines).None?;
    assert Touch(lines, tag).lines == MoveToFront(u, last);
    assert u[..last] == lines[..last];
  }

  /**
   * A hit only reorders the set: the line that holds the tag moves to the
   * front and the other lines keep their order behind it.
   */
  lemma {:induction false} TouchHitReorders(lines: seq<Line>, tag: int)
    requires |lines| >= 1 && Touch(lines, tag).outcome == Hit
    ensures FirstHolding(lines, tag).Some?
    ensures multiset(Touch(lines, tag).lines) == multiset(lines)
    ensures var i := FirstHolding(lines, tag).value;
      Touch(lines, tag).lines[0] == lines[i] &&
      Touch(lines, tag).lines[1..] == lines[..i] + lines[i + 1..]
  {
    MoveToFrontPermutes(lines, FirstHolding(lines, tag).value);
    MoveToFrontRest(lines, FirstHolding(lines, tag).value);
  }

  /** Moving a line to the front neither loses nor duplicates a line. */
  lemma {:induction false} MoveToFrontPermutes(lines: seq<Line>, i: nat)
    requires i < |lines|
    ensures multiset(MoveToFront(lines, i)) == multiset(lines)
  {
    assert lines == lines[..i] + [lines[i]] + lines[i + 1..];
  }

  lemma {:induction false} ValidCountConcat(a: seq<Line>, b: seq<Line>)
    ensures ValidCount(a + b) == ValidCount(a) + ValidCount(b)
  {
    if a == [] {
      assert a + b == b;
    } else {
      assert (a + b)[1..] == a[1..] + b;
      ValidCountConcat(a[1..], b);
    }
  }

  /** Counting valid lines around position i. */
  lemma {:induction false} ValidCountAround(lines: seq<Line>, i: nat)
    requires i < |lines|
    ensures ValidCount(lines) == ValidCount(lines[..i]) + (if lines[i].valid then 1 else 0) + ValidCount(lines[i + 1..])
  {
    assert lines == lines[..i] + ([lines[i]] + lines[i + 1..]);
    ValidCountConcat(lines[..i], [lines[i]] + lines[i + 1..]);
    ValidCountConcat([lines[i]], lines[i + 1..]);
  }

  lemma {:induction false} ValidCountFront(a: seq<Line>, x: Line, b: seq<Line>)
    ensures ValidCount([x] + a + b) == ValidCount(a + [x] + b)
  {
    ValidCountConcat([x] + a, b);
    ValidCountConcat([x], a);
    ValidCountConcat(a + [x], b);
    ValidCountConcat(a, [x]);
  }

  lemma {:induction false} MoveToFrontValidCount(lines: seq<Line>, i: nat)
    requires i < |lines|
    ensures ValidCount(MoveToFront(lines, i)) == ValidCount(lines)
  {
    ValidCountFront(lines[..i], lines[i], lines[i + 1..]);
    assert lines[..i] + [lines[i]] + lines[i + 1..] == lines;
  }

  /** Setting the valid bit or the tag of line i changes the count only through line i. */
  lemma {:induction false} UpdateValidCount(lines: seq<Line>, i: nat, l: Line)
    requires i < |lines|
    ensures ValidCount(lines[i := l]) + (if lines[i].valid then 1 else 0) == ValidCount(lines) + (if l.valid then 1 else 0)
  {
    var u := lines[i := l];
    ValidCountAround(lines, i);
    ValidCountAround(u, i);
    assert u[..i] == lines[..i] && u[i + 1..] == lines[i + 1..];
  }

  /**
   * The number of valid lines: a miss that fills an invalid line adds one
   * valid line, and a hit or an eviction keeps the count.
   */
  lemma {:induction false} TouchValidCount(lines: seq<Line>, tag: int)
    requires |lines| >= 1
    ensures ValidCount(Touch(lines, tag).lines) == ValidCount(lines) + (if Touch(lines, tag).outcome == Miss then 1 else 0)
  {
    match FirstHolding(lines, tag)
    case Some(i) =>
      MoveToFrontValidCount(lines, i);
    case None =>
      match FirstInvalid(lines)
      case Some(i) =>
        var l := lines[i].(valid := true, tag := tag);
        UpdateValidCount(lines, i, l);
        MoveToFrontValidCount(lines[i := l], i);
      case None =>
        var last := |lines| - 1;
        var l := lines[last].(tag := tag);
        UpdateValidCount(lines, last, l);
        MoveToFrontValidCount(lines[last := l], last);
  }

  lemma {:induction false} MoveToFrontUnique(lines: seq<Line>, i: nat)
    requires i < |lines| && UniqueTags(lines)
    ensures UniqueTags(MoveToFront(lines, i))
  {
    var r := MoveToFront(lines, i);
    forall p, q | 0 <= p < q < |r| && r[p].valid && r[q].valid
      ensures r[p].tag != r[q].tag
    {
      var p' := if p == 0 then i else if p <= i then p - 1 else p;
      var q' := if q == 0 then i else if q <= i then q - 1 else q;
      assert r[p] == lines[p'] && r[q] == lines[q'];
      assert p' != q';
    }
  }

  /** Giving line i a tag that no other valid line carries keeps the tags unique. */
  lemma {:induction false} RetagUnique(lines: seq<Line>, i: nat, tag: int, valid: bool)
    requires i < |lines| && UniqueTags(lines)
    requires forall j :: 0 <= j < |lines| ==> !Holds(lines[j], tag)
    ensures UniqueTags(lines[i := Line(valid, tag)])
  {
  }

  /** The simulator never holds two valid copies of one block in a set. */
  lemma {:induction false} TouchUnique(lines: seq<Line>, tag: int)
    requires |lines| >= 1 && UniqueTags(lines)
    ensures UniqueTags(Touch(lines, tag).lines)
  {
    match FirstHolding(lines, tag)
    case Some(i) =>
      MoveToFrontUnique(lines, i);
    case None =>
      match FirstInvalid(lines)
      case Some(i) =>
        RetagUnique(lines, i, tag, true);
        assert lines[i].(valid := true, tag := tag) == Line(true, tag);
        MoveToFrontUnique(lines[i := Line(true, tag)], i);
      case None =>
        var last := |lines| - 1;
        RetagUnique(lines, last, tag, lines[last].valid);
        assert lines[last].(tag := tag) == Line(lines[last].valid, tag);
        MoveToFrontUnique(lines[last := Line(lines[last].valid, tag)], last);
  }

  /** Loading the same tag twice: the second access is a hit that changes nothing. */
  lemma {:induction false} TouchTwice(lines: seq<Line>, tag: int)
    requires |lines| >= 1
    ensures Touch(Touch(lines, tag).lines, tag) == Touched(Hit, Touch(lines, tag).lines)
  {
    var once := Touch(lines, tag).lines;
    assert Holds(once[0], tag);
    assert FirstHolding(once, tag) == Some(0);
    assert MoveToFront(once, 0) == once;
  }

  // ---------------------------------------------------------------------------
  // Which line a set keeps: the lines a touch carries over, and recency
  // ---------------------------------------------------------------------------

  /** Behind the new front sits the old list with line i removed; every other line is still there. */
  lemma {:induction false} RestKeeps(lines: seq<Line>, i: nat, j: nat)
    requires i < |lines| && j < |lines| && j != i
    ensures lines[j] in lines[..i] + lines[i + 1..]
  {
    if j < i {
      assert (lines[..i] + lines[i + 1..])[j] == lines[j];
    } else {
      assert (lines[..i] + lines[i + 1..])[j - 1] == lines[j];
    }
  }

  /**
   * A valid line never becomes invalid: after a touch the set still holds
   * every valid line it held, except the last one when it was evicted.
   */
  lemma {:induction false} TouchKeepsLines(lines: seq<Line>, tag: int)
    requires |lines| >= 1
    ensures var r := Touch(lines, tag);
      forall j :: 0 <= j < |lines| && lines[j].valid && !(r.outcome == MissEvict && j == |lines| - 1) ==>
        lines[j] in r.lines
  {
    var r := Touch(lines, tag);
    assert r.lines == [r.lines[0]] + r.lines[1..];
    forall j | 0 <= j < |lines| && lines[j].valid && !(r.outcome == MissEvict && j == |lines| - 1)
      ensures lines[j] in r.lines
    {
      match r.outcome
      case Hit =>
        TouchHitReorders(lines, tag);
        var i := FirstHolding(lines, tag).value;
        if j != i {
          RestKeeps(lines, i, j);
        }
      case Miss =>
        TouchFillsFirstInvalid(lines, tag);
        RestKeeps(lines, FirstInvalid(lines).value, j);
      case MissEvict =>
        TouchEvictsLast(lines, tag);
        assert lines[j] == lines[..|lines| - 1][j];
    }
  }

  /** The position of the last access to `t` in the history, or -1 when `t` was never accessed. */
  function LastAccess(hist: seq<int>, t: int): (r: int)
    ensures -1 <= r < |hist|
    ensures r >= 0 ==> hist[r] == t && forall k :: r < k < |hist| ==> hist[k] != t
    ensures r == -1 <==> t !in hist
  {
    if hist == [] then -1
    else if hist[|hist| - 1] == t then |hist| - 1
    else
      assert hist == hist[..|hist| - 1] + [hist[|hist| - 1]];
      LastAccess(hist[..|hist| - 1], t)
  }

  /** One more access: it is now the last access to its tag, and no other tag's last access moves. */
  lemma {:induction false} LastAccessAppend(hist: seq<int>, t: int, x: int)
    ensures LastAccess(hist + [t], t) == |hist|
    ensures x != t ==> LastAccess(hist + [t], x) == LastAccess(hist, x)
  {
    assert (hist + [t])[..|hist|] == hist;
  }

  /**
   * The list order is the order of recency in the access history: every
   * valid line's tag has been accessed, and a valid line nearer the front
   * was accessed more recently than every valid line behind it.
   */
  ghost predicate RecencyOrdered(lines: seq<Line>, hist: seq<int>) {
    (forall p :: 0 <= p < |lines| && lines[p].valid ==> LastAccess(hist, lines[p].tag) >= 0) &&
    (forall p, q :: 0 <= p < q < |lines| && lines[p].valid && lines[q].valid ==>
      LastAccess(hist, lines[q].tag) < LastAccess(hist, lines[p].tag))
  }

  /** Taking one line out of the list keeps the others in recency order. */
  lemma {:induction false} RecencyRemove(lines: seq<Line>, hist: seq<int>, i: nat)
    requires i < |lines| && RecencyOrdered(lines, hist)
    ensures RecencyOrdered(lines[..i] + lines[i + 1..], hist)
  {
    var rest := lines[..i] + lines[i + 1..];
    forall p | 0 <= p < |rest|
      ensures rest[p] == lines[if p < i then p else p + 1]
    {
    }
  }

  /**
   * Putting a valid line with the tag just accessed in front of lines in
   * recency order, none of which holds that tag, gives a list in recency
   * order for the longer history.
   */
  lemma {:induction false} RecencyPush(rest: seq<Line>, hist: seq<int>, t: int)
    requires RecencyOrdered(rest, hist)
    requires forall j :: 0 <= j < |rest| ==> !Holds(rest[j], t)
    ensures RecencyOrdered([Line(true, t)] + rest, hist + [t])
  {
    var r := [Line(true, t)] + rest;
    var h := hist + [t];
    LastAccessAppend(hist, t, t);
    forall p | 0 <= p < |rest| && rest[p].valid
      ensures LastAccess(h, rest[p].tag) == LastAccess(hist, rest[p].tag)
    {
      LastAccessAppend(hist, t, rest[p].tag);
    }
    forall p, q | 0 <= p < q < |r| && r[p].valid && r[q].valid
      ensures 0 <= LastAccess(h, r[q].tag) < LastAccess(h, r[p].tag)
    {
      assert r[q] == rest[q - 1];
      if p > 0 {
        assert r[p] == rest[p - 1];
      }
    }
  }

  /**
   * The new front line with the tag just accessed, in front of the old list
   * with line i taken out, is in recency order for the longer history, when
   * no line other than i holds the tag.
   */
  lemma {:induction false} RecencyReplace(lines: seq<Line>, hist: seq<int>, t: int, i: nat)
    requires i < |lines| && RecencyOrdered(lines, hist)
    requires forall j :: 0 <= j < |lines| && j != i ==> !Holds(lines[j], t)
    ensures RecencyOrdered([Line(true, t)] + (lines[..i] + lines[i + 1..]), hist + [t])
  {
    var rest := lines[..i] + lines[i + 1..];
    RecencyRemove(lines, hist, i);
    forall j | 0 <= j < |rest|
      ensures !Holds(rest[j], t)
    {
      assert rest[j] == lines[if j < i then j else j + 1];
    }
    RecencyPush(rest, hist, t);
  }

  /** In recency order no two valid lines share a tag, so only line i holds the tag it holds. */
  lemma {:induction false} RecencyHolder(lines: seq<Line>, hist: seq<int>, t: int, i: nat)
    requires i < |lines| && RecencyOrdered(lines, hist) && Holds(lines[i], t)
    ensures forall j :: 0 <= j < |lines| && j != i ==> !Holds(lines[j], t)
  {
  }

  lemma {:induction false} FrontAndRest(r: seq<Line>, x: Line, rest: seq<Line>)
    requires |r| >= 1 && r[0] == x && r[1..] == rest
    ensures r == [x] + rest
  {
    assert r == [r[0]] + r[1..];
  }

  /** The new list of a touch is its new front line in front of the old list with one line taken out. */
  lemma {:induction false} TouchShape(lines: seq<Line>, t: int) returns (i: nat)
    requires |lines| >= 1
    ensures i < |lines|
    ensures Touch(lines, t).lines == [Line(true, t)] + (lines[..i] + lines[i + 1..])
    ensures Touch(lines, t).outcome == Hit ==> Holds(lines[i], t)
  {
    var r := Touch(lines, t);
    if r.outcome == Hit {
      TouchHitReorders(lines, t);
      i := FirstHolding(lines, t).value;
    } else if r.outcome == Miss {
      TouchFillsFirstInvalid(lines, t);
      i := FirstInvalid(lines).value;
    } else {
      TouchEvictsLast(lines, t);
      i := |lines| - 1;
      assert lines[..i] + lines[i + 1..] == lines[..i];
    }
    FrontAndRest(r.lines, Line(true, t), lines[..i] + lines[i + 1..]);
  }

  /**
   * The cache's LRU discipline over a history of accesses: if the set's
   * list was in recency order for the accesses so far, it is in recency
   * order after one more access.
   */
  lemma {:induction false} TouchKeepsRecency(lines: seq<Line>, hist: seq<int>, t: int)
    requires |lines| >= 1 && RecencyOrdered(lines, hist)
    ensures RecencyOrdered(Touch(lines, t).lines, hist + [t])
  {
    var i := TouchShape(lines, t);
    if Touch(lines, t).outcome == Hit {
      RecencyHolder(lines, hist, t, i);
    }
    RecencyReplace(lines, hist, t, i);
  }

  /**
   * The victim of an eviction is the least recently used block of the set:
   * its last access precedes that of every other line, and no line holds
   * it after the access.
   */
  lemma {:induction false} EvictsLeastRecent(lines: seq<Line>, hist: seq<int>, t: int)
    requires |lines| >= 1 && RecencyOrdered(lines, hist) && Touch(lines, t).outcome == MissEvict
    ensures var victim := lines[|lines| - 1].tag;
      (forall j :: 0 <= j < |lines| - 1 ==> LastAccess(hist, victim) < LastAccess(hist, lines[j].tag)) &&
      (forall j :: 0 <= j < |lines| ==> !Holds(Touch(lines, t).lines[j], victim))
  {
    var last := |lines| - 1;
    var r := Touch(lines, t).lines;
    TouchEvictsLast(lines, t);
    forall j | 0 <= j < |lines|
      ensures !Holds(r[j], lines[last].tag)
    {
      if j > 0 {
        assert r[j] == lines[j - 1];
        assert LastAccess(hist, lines[last].tag) < LastAccess(hist, lines[j - 1].tag);
      }
    }
  }

  /** A set of invalid lines, as `initCache` builds it, is in recency order for the empty history. */
  lemma {:induction false} EmptySetRecency(lines: seq<Line>)
    requires forall j :: 0 <= j < |lines| ==> !lines[j].valid
    ensures RecencyOrdered(lines, [])
  {
  }
}
