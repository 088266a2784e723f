/**
 * The cache simulator: a set-associative cache of 2^s sets of E lines with
 * LRU replacement, driven by the data accesses of a memory trace, counting
 * hits, misses and evictions.
 *
 * Each set's linked list is the sequence of its lines, most recently used
 * first (see module Lru).  The methods change the sets and the counters in
 * place and are proved against the functions of module Lru.
 */
module Csim {
  import opened Lru
  import Trace

  /** How many cache accesses a trace line makes: none for 'I', two for 'M', one otherwise. */
  function Accesses(cmd: string): (n: nat)
    requires Trace.TraceLine(cmd)
    ensures n <= 2
    ensures n == 0 <==> cmd[0] == 'I'
  {
    if cmd[0] == 'I' then 0 else if cmd[1] == 'M' then 2 else 1
  }

  function TotalAccesses(trace: seq<string>): nat
    requires forall i :: 0 <= i < |trace| ==> Trace.TraceLine(trace[i])
  {
    if trace == [] then 0 else Accesses(trace[0]) + TotalAccesses(trace[1..])
  }

  /** Two writes to the same set: the second one wins. */
  lemma UpdateTwice(sets: seq<seq<Line>>, k: nat, u: seq<Line>, v: seq<Line>)
    requires k < |sets|
    ensures sets[k := u][k := v] == sets[k := v]
  {
  }

  /** 2^s sets, each of exactly E lines, no two valid lines of a set with the same tag. */
  ghost predicate WellFormed(sets: seq<seq<Line>>, s: nat, E: nat)
  {
    E >= 1 && |sets| == Trace.Pow2(s) &&
    forall i :: 0 <= i < |sets| ==> |sets[i]| == E && UniqueTags(sets[i])
  }

  /** Replacing one set by another of E lines with unique tags keeps the cache well formed. */
  lemma CacheUpdate(sets: seq<seq<Line>>, s: nat, E: nat, k: nat, lines: seq<Line>)
    requires WellFormed(sets, s, E) && k < |sets|
    requires |lines| == E && UniqueTags(lines)
    ensures WellFormed(sets[k := lines], s, E)
  {
  }

  /** The simulator's state as a value: the sets and the three counters. */
  datatype State = State(sets: seq<seq<Line>>, hits: nat, misses: nat, evictions: nat)

  /**
   * What one trace line does to the state: an 'I' line nothing; any other
   * line touches the set its address selects with the address's tag, and a
   * modify adds the hit of its store.
   */
  function StepState(st: State, cmd: string, s: nat, E: nat, b: nat): (r: State)
    requires WellFormed(st.sets, s, E) && Trace.TraceLine(cmd)
    ensures WellFormed(r.sets, s, E)
    ensures r.hits >= st.hits && r.misses >= st.misses && r.evictions >= st.evictions
    ensures r.hits + r.misses == st.hits + st.misses + Accesses(cmd)
    ensures r.evictions - st.evictions <= r.misses - st.misses
    ensures cmd[0] == 'I' ==> r == st
  {
    if cmd[0] == 'I' then st
    else
      var addr := Trace.Address(cmd);
      var k := Trace.SetIndexOf(addr, s, b);
      var t := Touch(st.sets[k], Trace.TagOf(addr, s, b));
      TouchUnique(st.sets[k], Trace.TagOf(addr, s, b));
      CacheUpdate(st.sets, s, E, k, t.lines);
      State(st.sets[k := t.lines],
            st.hits + (if t.outcome == Hit then 1 else 0) + (if cmd[1] == 'M' then 1 else 0),
            st.misses + (if t.outcome == Hit then 0 else 1),
            st.evictions + (if t.outcome == MissEvict then 1 else 0))
  }

  /**
   * The trace loop as a fold of StepState over the lines: the cache stays
   * well formed, no counter goes down, every access counts once as a hit or
   * a miss, and there are never more new evictions than new misses.
   */
  function Run(st: State, trace: seq<string>, s: nat, E: nat, b: nat): (r: State)
    requires WellFormed(st.sets, s, E)
    requires forall i :: 0 <= i < |trace| ==> Trace.TraceLine(trace[i])
    ensures WellFormed(r.sets, s, E)
    ensures r.hits >= st.hits && r.misses >= st.misses && r.evictions >= st.evictions
    ensures r.hits + r.misses == st.hits + st.misses + TotalAccesses(trace)
    ensures r.evictions - st.evictions <= r.misses - st.misses
    decreases |trace|
  {
    if trace == [] then st else Run(StepState(st, trace[0], s, E, b), trace[1..], s, E, b)
  }

  class Cache {
    const s: nat
    const E: nat
    const b: nat
    var sets: seq<seq<Line>>
    var hits: nat
    var misses: nat
    var evictions: nat

    /** 2^s sets, each of exactly E lines, no two valid lines of a set with the same tag. */
    ghost predicate Valid()
      reads this
    {
      WellFormed(sets, s, E)
    }

    /** The sets and the counters as a value. */
    function Snapshot(): State
      reads this
    {
      State(sets, hits, misses, evictions)
    }

    /** `initCache`: every line of every set starts invalid with tag 0, and the counters at 0. */
    constructor (s: nat, E: nat, b: nat)
      requires E >= 1
      ensures this.s == s && this.E == E && this.b == b
      ensures Valid()
      ensures forall i, j :: 0 <= i < |sets| && 0 <= j < |sets[i]| ==> sets[i][j] == Line(false, 0)
      ensures hits == 0 && misses == 0 && evictions == 0
    {
      this.s, this.E, this.b := s, E, b;
      var count := Trace.Pow2(s);
      var built: seq<seq<Line>> := [];
      var i := 0;
      while i < count
        invariant 0 <= i <= count && |built| == i
        invariant forall p :: 0 <= p < i ==> |built[p]| == E
        invariant forall p, j :: 0 <= p < i && 0 <= j < |built[p]| ==> built[p][j] == Line(false, 0)
      {
        var lines: seq<Line> := [];
        var j := 0;
        while j < E
          invariant 0 <= j <= E && |lines| == j
          invariant forall q :: 0 <= q < j ==> lines[q] == Line(false, 0)
        {
          lines := lines + [Line(false, 0)];
          j := j + 1;
        }
        built := built + [lines];
        i := i + 1;
      }
      sets := built;
      hits, misses, evictions := 0, 0, 0;
    }

    /** `find_tag`: the first valid line of the set, from the MRU end, that carries the tag. */
    method FindTag(setIndex: nat, tag: int) returns (found: Option<nat>)
      requires setIndex < |sets|
      ensures found.Some? ==> found.value < |sets[setIndex]| && Holds(sets[setIndex][found.value], tag)
      ensures found.None? <==> forall j :: 0 <= j < |sets[setIndex]| ==> !Holds(sets[setIndex][j], tag)
      ensures found == FirstHolding(sets[setIndex], tag)
    {
      var lines := sets[setIndex];
      var p := 0;
      while p < |lines|
        invariant 0 <= p <= |lines|
        invariant forall j :: 0 <= j < p ==> !Holds(lines[j], tag)
      {
        if lines[p].tag == tag && lines[p].valid {
          return Some(p);
        }
        p := p + 1;
      }
      return None;
    }

    /** `move_to_head`: unlink line i of the set and relink it right after the head. */
    method MoveToHead(setIndex: nat, i: nat)
      requires setIndex < |sets| && i < |sets[setIndex]|
      modifies this
      ensures sets == old(sets)[setIndex := MoveToFront(old(sets)[setIndex], i)]
      ensures hits == old(hits) && misses == old(misses) && evictions == old(evictions)
    {
      var lines := sets[setIndex];
      var line := lines[i];
      var unlinked := lines[..i] + lines[i + 1..];
      sets := sets[setIndex := [line] + unlinked];
      assert [line] + unlinked == MoveToFront(lines, i);
    }

    /** The scan of `load` for an invalid line: the first one from the MRU end, if any. */
    method FindEmpty(setIndex: nat) returns (empty: Option<nat>)
      requires setIndex < |sets|
      ensures empty == FirstInvalid(sets[setIndex])
    {
      var lines := sets[setIndex];
      var p := 0;
      while p < |lines|
        invariant 0 <= p <= |lines|
        invariant forall j :: 0 <= j < p ==> lines[j].valid
      {
        if !lines[p].valid {
          return Some(p);
        }
        p := p + 1;
      }
      return None;
    }

    /** The eviction branch of `load`: the LRU line moves to the front and takes the new tag. */
    method EvictLast(setIndex: nat, tag: int)
      requires setIndex < |sets| && |sets[setIndex]| >= 1
      modifies this
      ensures var lines := old(sets)[setIndex]; var last := |lines| - 1;
        sets == old(sets)[setIndex := MoveToFront(lines[last := lines[last].(tag := tag)], last)]
      ensures hits == old(hits) && misses == old(misses) && evictions == old(evictions)
    {
      ghost var before := sets[setIndex];
      var last := |sets[setIndex]| - 1;
      MoveToHead(setIndex, last);
      var front := sets[setIndex];
      sets := sets[setIndex := front[0 := front[0].(tag := tag)]];
      MoveToFrontUpdate(before, last, before[last].(tag := tag));
      UpdateTwice(old(sets), setIndex, MoveToFront(before, last), sets[setIndex]);
    }

    /** The fill branch of `load`: invalid line p becomes valid with the new tag and moves to the front. */
    method FillLine(setIndex: nat, p: nat, tag: int)
      requires setIndex < |sets| && p < |sets[setIndex]|
      modifies this
      ensures var lines := old(sets)[setIndex];
        sets == old(sets)[setIndex := MoveToFront(lines[p := lines[p].(valid := true, tag := tag)], p)]
      ensures hits == old(hits) && misses == old(misses) && evictions == old(evictions)
    {
      var lines := sets[setIndex];
      sets := sets[setIndex := lines[p := lines[p].(valid := true, tag := tag)]];
      MoveToHead(setIndex, p);
      UpdateTwice(old(sets), setIndex, lines[p := lines[p].(valid := true, tag := tag)], sets[setIndex]);
    }

    /**
     * `load`: on a hit the line moves to the front; on a miss the first
     * invalid line is filled, or the last line is evicted and retagged, and
     * moved to the front.  Exactly one of hits and misses goes up, and
     * evictions goes up on a miss in a full set.
     */
    method Load(setIndex: nat, tag: int)
      requires Valid() && setIndex < |sets|
      modifies this
      ensures Valid()
      ensures sets == old(sets)[setIndex := Touch(old(sets)[setIndex], tag).lines]
      ensures var o := Touch(old(sets)[setIndex], tag).outcome;
        hits == old(hits) + (if o == Hit then 1 else 0) &&
        misses == old(misses) + (if o == Hit then 0 else 1) &&
        evictions == old(evictions) + (if o == MissEvict then 1 else 0)
    {
      ghost var before := sets[setIndex];
      ghost var r := Touch(before, tag);
      var line := FindTag(setIndex, tag);
      if line.None? {
        misses := misses + 1;
        var empty := FindEmpty(setIndex);
        if empty.None? {
          evictions := evictions + 1;
          EvictLast(setIndex, tag);
          assert r == Touched(MissEvict, sets[setIndex]) && sets == old(sets)[setIndex := r.lines];
        } else {
          FillLine(setIndex, empty.value, tag);
          assert r == Touched(Miss, sets[setIndex]) && sets == old(sets)[setIndex := r.lines];
        }
      } else {
        hits := hits + 1;
        MoveToHead(setIndex, line.value);
        assert r == Touched(Hit, sets[setIndex]) && sets == old(sets)[setIndex := r.lines];
      }
      TouchUnique(before, tag);
      CacheUpdate(old(sets), s, E, setIndex, r.lines);
    }

    /** `store`: the simulator does not tell reads from writes, so a store is a load. */
    method Store(setIndex: nat, tag: int)
      requires Valid() && setIndex < |sets|
      modifies this
      ensures Valid()
      ensures sets == old(sets)[setIndex := Touch(old(sets)[setIndex], tag).lines]
      ensures var o := Touch(old(sets)[setIndex], tag).outcome;
        hits == old(hits) + (if o == Hit then 1 else 0) &&
        misses == old(misses) + (if o == Hit then 0 else 1) &&
        evictions == old(evictions) + (if o == MissEvict then 1 else 0)
    {
      Load(setIndex, tag);
    }

    /**
     * `modify`: a load then a store of the same block.  The store always
     * hits, so hits goes up by one or two and misses by at most one.
     */
    method Modify(setIndex: nat, tag: int)
      requires Valid() && setIndex < |sets|
      modifies this
      ensures Valid()
      ensures sets == old(sets)[setIndex := Touch(old(sets)[setIndex], tag).lines]
      ensures var o := Touch(old(sets)[setIndex], tag).outcome;
        hits == old(hits) + (if o == Hit then 2 else 1) &&
        misses == old(misses) + (if o == Hit then 0 else 1) &&
        evictions == old(evictions) + (if o == MissEvict then 1 else 0)
    {
      ghost var before := sets[setIndex];
      Load(setIndex, tag);
      TouchTwice(before, tag);
      Store(setIndex, tag);
    }

    /**
     * One line of the trace loop: skip an instruction fetch; otherwise read
     * the address, split it into tag and set index, and perform the access
     * its operation letter names.
     */
    method Step(cmd: string)
      requires Valid() && Trace.TraceLine(cmd)
      modifies this
      ensures Valid()
      ensures cmd[0] == 'I' ==>
        sets == old(sets) && hits == old(hits) && misses == old(misses) && evictions == old(evictions)
      ensures cmd[0] != 'I' ==>
        var addr := Trace.Address(cmd);
        var setIndex := Trace.SetIndexOf(addr, s, b);
        var r := Touch(old(sets)[setIndex], Trace.TagOf(addr, s, b));
        sets == old(sets)[setIndex := r.lines] &&
        hits == old(hits) + (if r.outcome == Hit then 1 else 0) + (if cmd[1] == 'M' then 1 else 0) &&
        misses == old(misses) + (if r.outcome == Hit then 0 else 1) &&
        evictions == old(evictions) + (if r.outcome == MissEvict then 1 else 0)
    {
      if cmd[0] == 'I' {
        return;
      }
      var parsed := Trace.ParseAddress(cmd);
      var addr: nat := Trace.Address(cmd);
      assert parsed == addr;
      var tag := Trace.TagOf(addr, s, b);
      var setIndex := Trace.SetIndexOf(addr, s, b);
      if cmd[1] == 'M' {
        Modify(setIndex, tag);
      } else if cmd[1] == 'S' {
        Store(setIndex, tag);
      } else {
        Load(setIndex, tag);
      }
    }

    /**
     * The trace loop over all lines: the final sets and counters are Run of
     * the initial ones over the trace, so every access counts once as a hit
     * or a miss, no counter goes down and there are never more new
     * evictions than new misses.
     */
    method Simulate(trace: seq<string>)
      requires Valid()
      requires forall i :: 0 <= i < |trace| ==> Trace.TraceLine(trace[i])
      modifies this
      ensures Valid()
      ensures Snapshot() == Run(old(Snapshot()), trace, s, E, b)
      ensures hits >= old(hits) && misses >= old(misses) && evictions >= old(evictions)
      ensures hits + misses == old(hits) + old(misses) + TotalAccesses(trace)
      ensures evictions - old(evictions) <= misses - old(misses)
    {
      var i := 0;
      while i < |trace|
        invariant 0 <= i <= |trace| && Valid()
        invariant Run(Snapshot(), trace[i..], s, E, b) == Run(old(Snapshot()), trace, s, E, b)
      {
        ghost var before := Snapshot();
        Step(trace[i]);
        assert Snapshot() == StepState(before, trace[i], s, E, b);
        assert trace[i..][1..] == trace[i + 1..];
        i := i + 1;
      }
    }
  }
}
