/**
 * die_tree_iterator: every entry of every unit in pre-order, compile units
 * first, then type units.  The iterator holds a unit_iterator, the offsets
 * of the ancestors of the current entry (outermost first) and the current
 * entry; an entry about to be left for its first child has its offset pushed,
 * and an entry without children or further siblings climbs back to the
 * nearest ancestor that has a further sibling, or to the next unit's root.
 */
module DieTreeIterators {
  import opened Wrappers
  import opened DwarfModel
  import U = UnitIterators

  /** The fields of die_tree_iterator::pimpl. */
  datatype DieTreeState = DieTreeState(cuit: U.UnitState, stack: seq<Off>, die: Die)

  /** pimpl (Dwarf_Off), i.e. die_tree_iterator::end (): the end unit iterator
      and an empty stack.  The source leaves the entry uninitialised; equality
      never looks at it, and the model uses the entry of a default unit_info. */
  function EndState(): DieTreeState
  {
    DieTreeState(U.EndState(), [], U.NoInfo.cudie)
  }

  /** pimpl (unit_iterator const &): the root of the iterator's current unit. */
  function FromUnit(u: U.UnitState): DieTreeState
  {
    DieTreeState(u, [], u.info.cudie)
  }

  /** pimpl (Dwarf *): the root of the first unit. */
  function Begin(dw: Dwarf): Result<DieTreeState, Error>
  {
    match U.Begin(dw)
    case Failure(e) => Failure(e)
    case Success(u) => Success(FromUnit(u))
  }

  /** pimpl::operator==: equal unit iterators and stacks, and the same entry
      unless the unit iterator is at its end. */
  predicate Equal(a: DieTreeState, b: DieTreeState)
  {
    && U.Equal(a.cuit, b.cuit)
    && a.stack == b.stack
    && (U.Equal(a.cuit, U.EndState()) || a.die == b.die)
  }

  /** Whether ancestors are looked up in .debug_types: the unit's root carries
      DW_TAG_type_unit. */
  function UnitTypes(dw: Dwarf, u: U.UnitState): bool
  {
    Tag(dw, u.info.cudie) == DW_TAG_type_unit
  }

  /** dwpp_offdie_types or dwpp_offdie on an offset taken off the stack. */
  function Rehydrate(dw: Dwarf, u: U.UnitState, off: Off): Die
  {
    OffDie(UnitTypes(dw, u), off)
  }

  /** m_die = (++m_cuit)->cudie, with an empty stack. */
  function NextRoot(u: U.UnitState): Result<DieTreeState, Error>
    requires !U.IsEnd(u)
  {
    match U.Step(u)
    case Failure(e) => Failure(e)
    case Success(u') => Success(DieTreeState(u', [], u'.info.cudie))
  }

  /** The do/while loop of pimpl::move for an entry whose subtree is done: its
      next sibling if there is one; otherwise pop to the parent and retry, and
      once the stack is empty go to the next unit's root. */
  function Climb(dw: Dwarf, u: U.UnitState, stack: seq<Off>, die: Die): Result<DieTreeState, Error>
    requires !U.IsEnd(u)
    decreases |stack|
  {
    match SiblingOf(dw, die)
    case Some(sib) => Success(DieTreeState(u, stack, sib))
    case None =>
      if stack == [] then NextRoot(u)
      else
        var parent := Rehydrate(dw, u, stack[|stack| - 1]);
        var rest := stack[..|stack| - 1];
        if rest == [] then NextRoot(u) else Climb(dw, u, rest, parent)
  }

  /** pimpl::move: the first child if there is one (pushing the current
      offset), otherwise climb.  Moving the end iterator is undefined in the
      source (it reads an uninitialised entry), hence the precondition. */
  function Step(dw: Dwarf, s: DieTreeState): Result<DieTreeState, Error>
    requires !U.IsEnd(s.cuit)
  {
    match Child(dw, s.die)
    case Some(c) => Success(DieTreeState(s.cuit, s.stack + [DieOffset(s.die)], c))
    case None => Climb(dw, s.cuit, s.stack, s.die)
  }

  /** die_tree_iterator::parent: the end for a unit root, otherwise the top of
      the stack, popped.  The source asserts the iterator is not the end. */
  function ParentOf(dw: Dwarf, s: DieTreeState): DieTreeState
    requires !Equal(s, EndState())
  {
    if s.stack == [] then EndState()
    else DieTreeState(s.cuit, s.stack[..|s.stack| - 1], Rehydrate(dw, s.cuit, s.stack[|s.stack| - 1]))
  }

  /** The ancestors held on the stack, rehydrated, followed by the current
      entry. */
  function StackOf(dw: Dwarf, s: DieTreeState): (r: seq<Die>)
    ensures |r| == |s.stack| + 1 && r[|s.stack|] == s.die
    ensures forall i :: 0 <= i < |s.stack| ==> r[i] == Rehydrate(dw, s.cuit, s.stack[i])
  {
    seq(|s.stack|, i requires 0 <= i < |s.stack| => Rehydrate(dw, s.cuit, s.stack[i])) + [s.die]
  }

  function Reversed<T>(xs: seq<T>): (r: seq<T>)
    ensures |r| == |xs| && forall i :: 0 <= i < |xs| ==> r[i] == xs[|xs| - 1 - i]
  {
    if xs == [] then [] else Reversed(xs[1..]) + [xs[0]]
  }

  // ---------------------------------------------------------------------
  // Specification: what is left of the pre-order walk.

  ghost predicate StackIn(dw: Dwarf, t: bool, stack: seq<Off>)
  {
    forall i :: 0 <= i < |stack| ==> Has(dw, Die(t, stack[i]))
  }

  /** The path from the outermost ancestor to the current entry. */
  function PathOf(t: bool, stack: seq<Off>, die: Die): (r: seq<Die>)
    ensures |r| == |stack| + 1 && r[|stack|] == die
    ensures forall i :: 0 <= i < |stack| ==> r[i] == Die(t, stack[i])
  {
    seq(|stack|, i requires 0 <= i < |stack| => Die(t, stack[i])) + [die]
  }

  /** Each entry of p is a child of the one before it. */
  ghost predicate Linked(dw: Dwarf, p: seq<Die>)
  {
    && AllIn(dw, p)
    && forall i :: 0 < i < |p| ==> p[i] in Children(dw, p[i - 1])
  }

  /** The entries the walk still has to visit in the current unit after cur's
      subtree: cur's later siblings' subtrees, then (for each ancestor on the
      stack, innermost first) the later siblings' subtrees of that ancestor. */
  ghost function Tail(dw: Dwarf, t: bool, stack: seq<Off>, cur: Die): seq<Die>
    decreases |stack|, 1
  {
    Forest(dw, NextSibling(dw, cur)) + Up(dw, t, stack)
  }

  /** What the walk visits after the subtree of the innermost stacked
      ancestor, once that ancestor's subtree is done. */
  ghost function Up(dw: Dwarf, t: bool, stack: seq<Off>): seq<Die>
    decreases |stack|, 0
  {
    if stack == [] then [] else Tail(dw, t, stack[..|stack| - 1], Die(t, stack[|stack| - 1]))
  }

  /** The iterator's position inside the k-th unit: the current entry and the
      stacked ancestors are entries of the unit's section, and the outermost
      one (or the current entry, when the stack is empty) is the unit's root. */
  ghost predicate InUnit(dw: Dwarf, k: nat, stack: seq<Off>, die: Die)
    requires k < |AllUnits(dw)|
  {
    var t := AllUnits(dw)[k].types;
    && die.types == t && Has(dw, die) && StackIn(dw, t, stack)
    && (stack == [] ==> die == UnitRoot(dw, k))
    && (stack != [] ==> stack[0] == UnitRoot(dw, k).off)
  }

  /** The path from the outermost stacked entry to the current one goes from
      parent to child at every step. */
  ghost predicate Ancestry(dw: Dwarf, s: DieTreeState, k: nat)
    requires k < |AllUnits(dw)|
  {
    Linked(dw, PathOf(AllUnits(dw)[k].types, s.stack, s.die))
  }

  /** s stands inside the k-th unit, or k is past the last unit and s is at the
      end with an empty stack. */
  ghost predicate Walking(dw: Dwarf, s: DieTreeState, k: nat)
  {
    && WellFormed(dw) && k <= |AllUnits(dw)| && U.At(dw, s.cuit, k)
    && (k == |AllUnits(dw)| ==> s.stack == [])
    && (k < |AllUnits(dw)| ==> InUnit(dw, k, s.stack, s.die))
  }

  /** What iterating from s in the k-th unit visits: the rest of that unit's
      pre-order, starting with the current entry, then every later unit. */
  ghost function Pending(dw: Dwarf, s: DieTreeState, k: nat): seq<Die>
  {
    if k >= |AllUnits(dw)| then []
    else Subtree(dw, s.die) + Tail(dw, AllUnits(dw)[k].types, s.stack, s.die) + UnitsFrom(dw, k + 1)
  }

  /** After one step from the k-th unit the iterator stands in the same unit or
      in the next one, with rest left to visit. */
  ghost predicate Continues(dw: Dwarf, s': DieTreeState, k: nat, rest: seq<Die>)
  {
    || (Walking(dw, s', k) && Pending(dw, s', k) == rest)
    || (Walking(dw, s', k + 1) && Pending(dw, s', k + 1) == rest)
  }

  // ---------------------------------------------------------------------
  // Lemmas: the walk.

  /** A later sibling of a child of p is a child of p too. */
  lemma {:induction false} ChainClosed(dw: Dwarf, first: Option<Die>, c: Die)
    requires first.Some? ==> SectionOk(dw, first.value.types) && Has(dw, first.value)
    requires c in SiblingChain(dw, first) && SiblingOf(dw, c).Some?
    ensures SiblingOf(dw, c).value in SiblingChain(dw, first)
    decreases ChainRank(dw, first)
  {
    var d := first.value;
    ForwardOk(dw, d);
    assert SiblingChain(dw, first) == [d] + SiblingChain(dw, SiblingOf(dw, d));
    if c != d {
      ChainClosed(dw, SiblingOf(dw, d), c);
    }
  }

  /** The root of a unit has the unit's phase, and its tag says which phase. */
  lemma UnitTypesAt(dw: Dwarf, u: U.UnitState, k: nat)
    requires WellFormed(dw) && k < |AllUnits(dw)| && U.At(dw, u, k)
    ensures UnitTypes(dw, u) == AllUnits(dw)[k].types
    ensures u.info.cudie == UnitRoot(dw, k)
  {
    UnitRootOk(dw, k);
  }

  lemma PathPush(t: bool, stack: seq<Off>, die: Die, c: Die)
    requires die.types == t
    ensures PathOf(t, stack + [die.off], c) == PathOf(t, stack, die) + [c]
  {
    assert PathOf(t, stack + [die.off], c)[|stack|] == die;
  }

  lemma PathPop(t: bool, stack: seq<Off>, die: Die)
    requires stack != []
    ensures PathOf(t, stack[..|stack| - 1], Die(t, stack[|stack| - 1])) == PathOf(t, stack, die)[..|stack|]
  {
  }

  lemma PathSwap(t: bool, stack: seq<Off>, die: Die, sib: Die)
    ensures PathOf(t, stack, sib) == PathOf(t, stack, die)[..|stack|] + [sib]
  {
  }

  /** An iterator built from a unit iterator at the k-th unit stands at the
      unit's root with an empty stack. */
  lemma FromUnitInUnit(dw: Dwarf, u: U.UnitState, k: nat)
    requires WellFormed(dw) && k < |AllUnits(dw)| && U.At(dw, u, k)
    ensures Walking(dw, FromUnit(u), k)
  {
    assert u.info.cudie == UnitRoot(dw, k) by {
      UnitTypesAt(dw, u, k);
    }
    UnitRootOk(dw, k);
    assert InUnit(dw, k, [], u.info.cudie);
  }

  /** ... and has the whole unit, then the later ones, still to visit. */
  lemma FromUnitPending(dw: Dwarf, u: U.UnitState, k: nat)
    requires WellFormed(dw) && k < |AllUnits(dw)| && U.At(dw, u, k)
    ensures Pending(dw, FromUnit(u), k) == UnitsFrom(dw, k)
  {
    UnitTypesAt(dw, u, k);
    RootTailEmpty(dw, k);
  }

  /** A unit's root has no sibling, so nothing of its unit follows its subtree. */
  lemma RootTailEmpty(dw: Dwarf, k: nat)
    requires WellFormed(dw) && k < |AllUnits(dw)|
    ensures Tail(dw, AllUnits(dw)[k].types, [], UnitRoot(dw, k)) == []
  {
    UnitRootOk(dw, k);
  }

  /** An iterator built from a unit iterator at the k-th unit visits the
      entries of that unit and every later one. */
  lemma FromUnitWalks(dw: Dwarf, u: U.UnitState, k: nat)
    requires WellFormed(dw) && k <= |AllUnits(dw)| && U.At(dw, u, k)
    ensures Walking(dw, FromUnit(u), k) && Pending(dw, FromUnit(u), k) == UnitsFrom(dw, k)
  {
    if k < |AllUnits(dw)| {
      FromUnitInUnit(dw, u, k);
      FromUnitPending(dw, u, k);
    }
  }

  /** The next unit's root: the walk continues with the units after the k-th. */
  lemma NextRootWalks(dw: Dwarf, u: U.UnitState, k: nat)
    requires WellFormed(dw) && k < |AllUnits(dw)| && U.At(dw, u, k)
    ensures !U.IsEnd(u) && NextRoot(u).Success?
    ensures NextRoot(u).value == FromUnit(U.Step(u).value)
    ensures Walking(dw, NextRoot(u).value, k + 1)
    ensures Pending(dw, NextRoot(u).value, k + 1) == UnitsFrom(dw, k + 1)
  {
    U.StepAt(dw, u, k);
    FromUnitWalks(dw, U.Step(u).value, k + 1);
  }

  /** Moving to the next sibling stays inside the unit; a unit root has no
      sibling, so the stack is not empty. */
  lemma SiblingInUnit(dw: Dwarf, stack: seq<Off>, cur: Die, k: nat)
    requires WellFormed(dw) && k < |AllUnits(dw)| && InUnit(dw, k, stack, cur)
    requires SiblingOf(dw, cur).Some?
    ensures stack != [] && InUnit(dw, k, stack, SiblingOf(dw, cur).value)
  {
    UnitRootOk(dw, k);
    ForwardOk(dw, cur);
  }

  /** The tail after cur begins with the subtree of cur's next sibling. */
  lemma SiblingTail(dw: Dwarf, t: bool, stack: seq<Off>, cur: Die)
    requires NextSibling(dw, cur).Some?
    ensures var sib := NextSibling(dw, cur).value;
      Tail(dw, t, stack, cur) == Subtree(dw, sib) + Tail(dw, t, stack, sib)
  {
    var sib := NextSibling(dw, cur).value;
    var a := Subtree(dw, sib);
    var b := Forest(dw, NextSibling(dw, sib));
    var c := Up(dw, t, stack);
    assert Forest(dw, NextSibling(dw, cur)) == a + b;
    assert (a + b) + c == a + (b + c);
  }

  /** Popping to the parent stays inside the unit. */
  lemma PopInUnit(dw: Dwarf, stack: seq<Off>, cur: Die, k: nat)
    requires k < |AllUnits(dw)| && InUnit(dw, k, stack, cur) && |stack| > 1
    ensures InUnit(dw, k, stack[..|stack| - 1], Die(AllUnits(dw)[k].types, stack[|stack| - 1]))
  {
  }

  /** Once cur and its later siblings are done, the tail is the parent's. */
  lemma PopTail(dw: Dwarf, t: bool, stack: seq<Off>, cur: Die)
    requires NextSibling(dw, cur).None? && stack != []
    ensures Tail(dw, t, stack, cur) == Tail(dw, t, stack[..|stack| - 1], Die(t, stack[|stack| - 1]))
  {
    assert Tail(dw, t, stack, cur) == [] + Up(dw, t, stack);
  }

  /** The climb from cur continues the walk with cur's tail. */
  lemma {:induction false} ClimbWalks(dw: Dwarf, u: U.UnitState, stack: seq<Off>, cur: Die, k: nat)
    requires WellFormed(dw) && k < |AllUnits(dw)| && U.At(dw, u, k) && InUnit(dw, k, stack, cur)
    ensures !U.IsEnd(u) && Climb(dw, u, stack, cur).Success?
    ensures Continues(dw, Climb(dw, u, stack, cur).value, k,
                      Tail(dw, AllUnits(dw)[k].types, stack, cur) + UnitsFrom(dw, k + 1))
    decreases |stack|
  {
    U.AtEnd(dw, u, k);
    UnitTypesAt(dw, u, k);
    UnitRootOk(dw, k);
    ForwardOk(dw, cur);
    var t := AllUnits(dw)[k].types;
    match SiblingOf(dw, cur)
    case Some(sib) =>
      SiblingInUnit(dw, stack, cur, k);
      SiblingTail(dw, t, stack, cur);
      var s' := DieTreeState(u, stack, sib);
      assert Climb(dw, u, stack, cur) == Success(s');
      assert Walking(dw, s', k);
    case None =>
      if stack == [] {
        assert Tail(dw, t, stack, cur) == [];
        NextRootWalks(dw, u, k);
      } else {
        var parent := Die(t, stack[|stack| - 1]);
        var rest := stack[..|stack| - 1];
        assert Rehydrate(dw, u, stack[|stack| - 1]) == parent;
        PopTail(dw, t, stack, cur);
        if rest == [] {
          assert parent == UnitRoot(dw, k);
          ForwardOk(dw, parent);
          assert Tail(dw, t, rest, parent) == [];
          NextRootWalks(dw, u, k);
        } else {
          PopInUnit(dw, stack, cur, k);
          assert Climb(dw, u, stack, cur) == Climb(dw, u, rest, parent);
          ClimbWalks(dw, u, rest, parent, k);
        }
      }
  }

  /** The first child's subtree and the current entry's tail make up the
      tail of the first child pushed onto the stack. */
  lemma ChildTail(dw: Dwarf, t: bool, stack: seq<Off>, cur: Die)
    requires cur.types == t && FirstChild(dw, cur).Some?
    ensures var c := FirstChild(dw, cur).value;
      Subtree(dw, c) + Tail(dw, t, stack + [cur.off], c) == Forest(dw, FirstChild(dw, cur)) + Tail(dw, t, stack, cur)
  {
    var c := FirstChild(dw, cur).value;
    var stack' := stack + [cur.off];
    assert stack'[..|stack'| - 1] == stack;
    var a := Subtree(dw, c);
    var b := Forest(dw, NextSibling(dw, c));
    var d := Tail(dw, t, stack, cur);
    assert Up(dw, t, stack') == d;
    assert Forest(dw, FirstChild(dw, cur)) == a + b;
    assert (a + b) + d == a + (b + d);
  }

  /** The walk from s begins with the current entry, then its children's
      subtrees, then its tail, then the later units. */
  lemma PendingHead(dw: Dwarf, s: DieTreeState, k: nat)
    requires k < |AllUnits(dw)|
    ensures Pending(dw, s, k) == [s.die] + (Forest(dw, FirstChild(dw, s.die))
      + Tail(dw, AllUnits(dw)[k].types, s.stack, s.die) + UnitsFrom(dw, k + 1))
  {
    var f := Forest(dw, FirstChild(dw, s.die));
    var tail := Tail(dw, AllUnits(dw)[k].types, s.stack, s.die);
    var later := UnitsFrom(dw, k + 1);
    assert Subtree(dw, s.die) == [s.die] + f;
    assert ([s.die] + f) + tail == [s.die] + (f + tail);
    assert ([s.die] + (f + tail)) + later == [s.die] + ((f + tail) + later);
  }

  /** Descending to the first child stays inside the unit and keeps the walk. */
  lemma ChildWalks(dw: Dwarf, s: DieTreeState, k: nat)
    requires Walking(dw, s, k) && k < |AllUnits(dw)| && Child(dw, s.die).Some?
    ensures !U.IsEnd(s.cuit)
    ensures Step(dw, s).Success?
    ensures Continues(dw, Step(dw, s).value, k,
      Forest(dw, FirstChild(dw, s.die)) + Tail(dw, AllUnits(dw)[k].types, s.stack, s.die) + UnitsFrom(dw, k + 1))
  {
    assert !U.IsEnd(s.cuit) by {
      U.AtEnd(dw, s.cuit, k);
    }
    var t := AllUnits(dw)[k].types;
    var c := Child(dw, s.die).value;
    assert FirstChild(dw, s.die) == Child(dw, s.die) && Has(dw, c) by {
      ForwardOk(dw, s.die);
    }
    var stack' := s.stack + [DieOffset(s.die)];
    var s' := DieTreeState(s.cuit, stack', c);
    assert Step(dw, s) == Success(s');
    assert Walking(dw, s', k) by {
      assert InUnit(dw, k, stack', c);
    }
    ChildTail(dw, t, s.stack, s.die);
  }

  /** Without children the step is the climb, which continues with the tail. */
  lemma LeafWalks(dw: Dwarf, s: DieTreeState, k: nat)
    requires Walking(dw, s, k) && k < |AllUnits(dw)| && Child(dw, s.die).None?
    ensures !U.IsEnd(s.cuit)
    ensures Step(dw, s).Success?
    ensures Continues(dw, Step(dw, s).value, k,
      Forest(dw, FirstChild(dw, s.die)) + Tail(dw, AllUnits(dw)[k].types, s.stack, s.die) + UnitsFrom(dw, k + 1))
  {
    ClimbWalks(dw, s.cuit, s.stack, s.die, k);
    assert Step(dw, s) == Climb(dw, s.cuit, s.stack, s.die);
    var tail := Tail(dw, AllUnits(dw)[k].types, s.stack, s.die);
    var later := UnitsFrom(dw, k + 1);
    assert Forest(dw, FirstChild(dw, s.die)) == [];
    assert [] + tail == tail;
  }

  /** One increment visits the current entry: the walk after it is the walk
      before it without its first entry, which is the current entry. */
  lemma StepWalks(dw: Dwarf, s: DieTreeState, k: nat)
    requires Walking(dw, s, k) && k < |AllUnits(dw)|
    ensures !U.IsEnd(s.cuit) && Step(dw, s).Success?
    ensures Pending(dw, s, k) != [] && Pending(dw, s, k)[0] == s.die
    ensures Continues(dw, Step(dw, s).value, k, Pending(dw, s, k)[1..])
  {
    PendingHead(dw, s, k);
    if Child(dw, s.die).Some? {
      ChildWalks(dw, s, k);
    } else {
      LeafWalks(dw, s, k);
    }
  }

  /** The unit the walk from s in the k-th unit stands in after one increment. */
  ghost function UnitAfter(dw: Dwarf, s: DieTreeState, k: nat): nat
  {
    if && !U.IsEnd(s.cuit) && Step(dw, s).Success? && Pending(dw, s, k) != []
       && Walking(dw, Step(dw, s).value, k) && Pending(dw, Step(dw, s).value, k) == Pending(dw, s, k)[1..]
    then k else k + 1
  }

  /** One increment visits exactly the current entry and keeps walking. */
  lemma StepAdvances(dw: Dwarf, s: DieTreeState, k: nat)
    requires Walking(dw, s, k) && k < |AllUnits(dw)|
    ensures !U.IsEnd(s.cuit) && Step(dw, s).Success?
    ensures Walking(dw, Step(dw, s).value, UnitAfter(dw, s, k))
    ensures Pending(dw, s, k) == [s.die] + Pending(dw, Step(dw, s).value, UnitAfter(dw, s, k))
  {
    StepWalks(dw, s, k);
    var s' := Step(dw, s).value;
    var rest := Pending(dw, s, k)[1..];
    assert Pending(dw, s, k) == [s.die] + rest;
    if Walking(dw, s', k) && Pending(dw, s', k) == rest {
      assert UnitAfter(dw, s, k) == k;
    } else {
      assert UnitAfter(dw, s, k) == k + 1;
    }
  }

  /** One step moves the entry it leaves from what is pending to what has
      been seen, and the two together are still every entry. */
  lemma SeenGrows(dw: Dwarf, s: DieTreeState, k: nat, seen: seq<Die>)
    requires Walking(dw, s, k) && k < |AllUnits(dw)|
    requires seen + Pending(dw, s, k) == AllEntries(dw)
    ensures !U.IsEnd(s.cuit) && Step(dw, s).Success?
    ensures Walking(dw, Step(dw, s).value, UnitAfter(dw, s, k))
    ensures (seen + [s.die]) + Pending(dw, Step(dw, s).value, UnitAfter(dw, s, k)) == AllEntries(dw)
  {
    StepAdvances(dw, s, k);
    var rest := Pending(dw, Step(dw, s).value, UnitAfter(dw, s, k));
    assert (seen + [s.die]) + rest == seen + ([s.die] + rest);
  }

  /** die_tree_iterator (dw) visits every entry of every unit. */
  lemma BeginWalks(dw: Dwarf)
    requires WellFormed(dw)
    ensures Begin(dw).Success? && Walking(dw, Begin(dw).value, 0)
    ensures Pending(dw, Begin(dw).value, 0) == AllEntries(dw)
  {
    U.BeginAt(dw);
    FromUnitWalks(dw, U.Begin(dw).value, 0);
  }

  /** During the walk the iterator equals end () exactly after the last unit. */
  lemma EndTest(dw: Dwarf, s: DieTreeState, k: nat)
    requires Walking(dw, s, k)
    ensures Equal(s, EndState()) <==> k == |AllUnits(dw)|
  {
    U.AtEnd(dw, s.cuit, k);
    U.IsEndIsEqualToEnd(s.cuit);
  }

  /** pimpl::operator== is an equivalence, also when one side is the end: a
      unit iterator equal to the end one is itself at the end. */
  lemma EqualIsEquivalence(a: DieTreeState, b: DieTreeState, c: DieTreeState)
    ensures Equal(a, a)
    ensures Equal(a, b) ==> Equal(b, a)
    ensures Equal(a, b) && Equal(b, c) ==> Equal(a, c)
  {
  }

  /** An iterator built from a unit iterator at the end equals end (), as
      the iterator test checks. */
  lemma FromEndIsEnd(u: U.UnitState)
    requires U.IsEnd(u)
    ensures Equal(FromUnit(u), EndState())
  {
    U.IsEndIsEqualToEnd(u);
  }

  // ---------------------------------------------------------------------
  // Lemmas: the stack holds the ancestors.

  lemma RootLinked(dw: Dwarf, t: bool, d: Die)
    requires SectionOk(dw, d.types) && Has(dw, d)
    ensures Linked(dw, PathOf(t, [], d))
  {
    assert PathOf(t, [], d) == [d];
  }

  lemma ChildLinked(dw: Dwarf, t: bool, stack: seq<Off>, cur: Die)
    requires cur.types == t && Linked(dw, PathOf(t, stack, cur)) && Child(dw, cur).Some?
    ensures Linked(dw, PathOf(t, stack + [cur.off], Child(dw, cur).value))
  {
    var c := Child(dw, cur).value;
    var p := PathOf(t, stack, cur);
    assert AllIn(dw, p) && p[|stack|] == cur;
    ForwardOk(dw, cur);
    PathPush(t, stack, cur, c);
    var p' := p + [c];
    assert c == Children(dw, cur)[0];
    assert AllIn(dw, p');
    forall i | 0 < i < |p'| ensures p'[i] in Children(dw, p'[i - 1]) {
      if i < |p| {
        assert p'[i] == p[i] && p'[i - 1] == p[i - 1];
      }
    }
  }

  lemma SiblingLinked(dw: Dwarf, t: bool, stack: seq<Off>, cur: Die)
    requires Linked(dw, PathOf(t, stack, cur)) && stack != [] && SiblingOf(dw, cur).Some?
    ensures Linked(dw, PathOf(t, stack, SiblingOf(dw, cur).value))
  {
    var sib := SiblingOf(dw, cur).value;
    var p := PathOf(t, stack, cur);
    var parent := p[|stack| - 1];
    assert cur in Children(dw, parent);
    assert AllIn(dw, p) && p[|stack|] == cur;
    ForwardOk(dw, cur);
    ForwardOk(dw, parent);
    ChainClosed(dw, Child(dw, parent), cur);
    PathSwap(t, stack, cur, sib);
    var p' := PathOf(t, stack, sib);
    assert AllIn(dw, p');
    forall i | 0 < i < |p'| ensures p'[i] in Children(dw, p'[i - 1]) {
      if i < |stack| {
        assert p'[i] == p[i] && p'[i - 1] == p[i - 1];
      } else {
        assert p'[i - 1] == parent;
      }
    }
  }

  lemma PopLinked(dw: Dwarf, t: bool, stack: seq<Off>, cur: Die)
    requires Linked(dw, PathOf(t, stack, cur)) && stack != []
    ensures Linked(dw, PathOf(t, stack[..|stack| - 1], Die(t, stack[|stack| - 1])))
  {
    PathPop(t, stack, cur);
    var p := PathOf(t, stack, cur);
    var p' := p[..|stack|];
    assert AllIn(dw, p');
    forall i | 0 < i < |p'| ensures p'[i] in Children(dw, p'[i - 1]) {
      assert p'[i] == p[i] && p'[i - 1] == p[i - 1];
    }
  }

  /** A fresh unit walk starts at the root, which is its own whole path. */
  lemma NewUnitLinked(dw: Dwarf, s: DieTreeState, k: nat)
    requires WellFormed(dw) && k < |AllUnits(dw)| && s.stack == [] && InUnit(dw, k, s.stack, s.die)
    ensures Ancestry(dw, s, k)
  {
    UnitRootOk(dw, k);
    RootLinked(dw, AllUnits(dw)[k].types, s.die);
  }

  /** The climb keeps the stack a path of ancestors. */
  lemma {:induction false} ClimbKeepsAncestry(dw: Dwarf, u: U.UnitState, stack: seq<Off>, cur: Die, k: nat)
    requires WellFormed(dw) && k < |AllUnits(dw)| && U.At(dw, u, k) && InUnit(dw, k, stack, cur)
    requires Linked(dw, PathOf(AllUnits(dw)[k].types, stack, cur))
    ensures !U.IsEnd(u) && Climb(dw, u, stack, cur).Success?
    ensures var s' := Climb(dw, u, stack, cur).value;
      && (Walking(dw, s', k) ==> Ancestry(dw, s', k))
      && (k + 1 < |AllUnits(dw)| && Walking(dw, s', k + 1) ==> Ancestry(dw, s', k + 1))
    decreases |stack|
  {
    assert !U.IsEnd(u) && Climb(dw, u, stack, cur).Success? by {
      ClimbWalks(dw, u, stack, cur, k);
    }
    var t := AllUnits(dw)[k].types;
    assert UnitTypes(dw, u) == t by {
      UnitTypesAt(dw, u, k);
    }
    var s' := Climb(dw, u, stack, cur).value;
    match SiblingOf(dw, cur)
    case Some(sib) =>
      assert stack != [] by {
        SiblingInUnit(dw, stack, cur, k);
      }
      assert s'.stack == stack && s'.die == sib;
      SiblingLinked(dw, t, stack, cur);
    case None =>
      var rest := if stack == [] then [] else stack[..|stack| - 1];
      if stack == [] || rest == [] {
        assert s'.stack == [] by {
          NextRootWalks(dw, u, k);
        }
        if Walking(dw, s', k) {
          NewUnitLinked(dw, s', k);
        }
        if k + 1 < |AllUnits(dw)| && Walking(dw, s', k + 1) {
          NewUnitLinked(dw, s', k + 1);
        }
      } else {
        var parent := Die(t, stack[|stack| - 1]);
        assert Rehydrate(dw, u, stack[|stack| - 1]) == parent;
        PopInUnit(dw, stack, cur, k);
        PopLinked(dw, t, stack, cur);
        assert Climb(dw, u, stack, cur) == Climb(dw, u, rest, parent);
        ClimbKeepsAncestry(dw, u, rest, parent, k);
      }
  }

  /** Every increment keeps the stack a path of ancestors of the current
      entry (of the new unit's root after a unit change). */
  lemma StepKeepsAncestry(dw: Dwarf, s: DieTreeState, k: nat)
    requires Walking(dw, s, k) && k < |AllUnits(dw)| && Ancestry(dw, s, k)
    ensures !U.IsEnd(s.cuit) && Step(dw, s).Success?
    ensures var s' := Step(dw, s).value;
      && (Walking(dw, s', k) ==> Ancestry(dw, s', k))
      && (k + 1 < |AllUnits(dw)| && Walking(dw, s', k + 1) ==> Ancestry(dw, s', k + 1))
  {
    StepWalks(dw, s, k);
    var t := AllUnits(dw)[k].types;
    match Child(dw, s.die)
    case Some(c) =>
      ChildLinked(dw, t, s.stack, s.die);
    case None =>
      ClimbKeepsAncestry(dw, s.cuit, s.stack, s.die, k);
  }

  /** ... and it starts out as one at every unit's root. */
  lemma FromUnitAncestry(dw: Dwarf, u: U.UnitState, k: nat)
    requires WellFormed(dw) && k < |AllUnits(dw)| && U.At(dw, u, k)
    ensures Walking(dw, FromUnit(u), k) && Ancestry(dw, FromUnit(u), k)
  {
    FromUnitWalks(dw, u, k);
    NewUnitLinked(dw, FromUnit(u), k);
  }

  /** The stack lists the current entry's ancestors: the unit's root first,
      each entry a child of the one before, the current entry last. */
  lemma StackIsAncestry(dw: Dwarf, s: DieTreeState, k: nat)
    requires Walking(dw, s, k) && k < |AllUnits(dw)| && Ancestry(dw, s, k)
    ensures var p := StackOf(dw, s);
      && p[0] == UnitRoot(dw, k) && p[|p| - 1] == s.die && Linked(dw, p)
  {
    UnitTypesAt(dw, s.cuit, k);
    assert StackOf(dw, s) == PathOf(AllUnits(dw)[k].types, s.stack, s.die);
  }

  /** Every entry of a sibling chain whose first entry lies after o lies
      after o: siblings come later in the section. */
  lemma {:induction false} ChainAbove(dw: Dwarf, first: Option<Die>, o: Off, c: Die)
    requires first.Some? ==> first.value.off > o
    requires c in SiblingChain(dw, first)
    ensures c.off > o
    decreases ChainRank(dw, first)
  {
    var d := first.value;
    assert SiblingChain(dw, first) == [d] + SiblingChain(dw, NextSibling(dw, d));
    if c != d {
      ChainAbove(dw, NextSibling(dw, d), o, c);
    }
  }

  /** Along a parent-to-child path the offsets increase, so a path of more
      than one entry ends after its first entry. */
  lemma {:induction false} PathIncreases(dw: Dwarf, p: seq<Die>)
    requires Linked(dw, p) && |p| > 1
    ensures p[0].off < p[|p| - 1].off
    decreases |p|
  {
    var n := |p| - 1;
    ChainAbove(dw, FirstChild(dw, p[n - 1]), p[n - 1].off, p[n]);
    if n > 1 {
      var q := p[..n];
      assert AllIn(dw, q);
      forall i | 0 < i < |q| ensures q[i] in Children(dw, q[i - 1]) {
        assert q[i] == p[i] && q[i - 1] == p[i - 1];
      }
      PathIncreases(dw, q);
    }
  }

  /** parent () of a unit's root is the end; of any other entry it is the
      iterator at that entry's parent, inside the same unit. */
  lemma ParentIsParent(dw: Dwarf, s: DieTreeState, k: nat)
    requires Walking(dw, s, k) && k < |AllUnits(dw)| && Ancestry(dw, s, k)
    ensures !Equal(s, EndState())
    ensures s.die == UnitRoot(dw, k) <==> s.stack == []
    ensures s.stack == [] ==> ParentOf(dw, s) == EndState()
    ensures s.stack != [] ==>
      && Walking(dw, ParentOf(dw, s), k) && Ancestry(dw, ParentOf(dw, s), k)
      && s.die in Children(dw, ParentOf(dw, s).die)
  {
    EndTest(dw, s, k);
    if s.stack != [] {
      var t := AllUnits(dw)[k].types;
      UnitTypesAt(dw, s.cuit, k);
      var p := PathOf(t, s.stack, s.die);
      assert ParentOf(dw, s).die == p[|s.stack| - 1];
      if |s.stack| > 1 {
        PopInUnit(dw, s.stack, s.die, k);
      }
      PopLinked(dw, t, s.stack, s.die);
      PathIncreases(dw, p);
    }
  }

  // ---------------------------------------------------------------------
  // The iterator object.

  class DieTreeIterator {
    var cuit: U.UnitIterator
    var stack: seq<Off>
    var die: Die

    function State(): DieTreeState
      reads this, cuit
    {
      DieTreeState(cuit.State(), stack, die)
    }

    /** die_tree_iterator (Dwarf_Off), as end () constructs it. */
    constructor End()
      ensures State() == EndState() && fresh(cuit)
    {
      cuit := new U.UnitIterator.End();
      stack := [];
      die := U.NoInfo.cudie;
    }

    /** die_tree_iterator (unit_iterator const &): owns a copy of the unit
        iterator. */
    constructor OfUnit(u: U.UnitIterator)
      ensures State() == FromUnit(u.State()) && fresh(cuit)
    {
      cuit := new U.UnitIterator.Copy(u);
      stack := [];
      die := u.info.cudie;
    }

    /** The copy constructor. */
    constructor Copy(that: DieTreeIterator)
      ensures State() == that.State() && fresh(cuit)
    {
      cuit := new U.UnitIterator.Copy(that.cuit);
      stack := that.stack;
      die := that.die;
    }

    /** die_tree_iterator (Dwarf *) */
    static method Create(dw: Dwarf) returns (r: Result<DieTreeIterator, Error>)
      ensures r.Success? <==> Begin(dw).Success?
      ensures r.Success? ==> fresh(r.value) && fresh(r.value.cuit) && r.value.State() == Begin(dw).value
    {
      var c := U.UnitIterator.Create(dw);
      if c.Failure? {
        return Failure(c.error);
      }
      var it := new DieTreeIterator.OfUnit(c.value);
      r := Success(it);
    }

    /** operator=: a fresh copy of that's pimpl, nothing when that is this. */
    method Assign(that: DieTreeIterator)
      modifies this
      ensures State() == old(that.State())
      ensures this != that ==> fresh(cuit)
    {
      if this != that {
        var c := new U.UnitIterator.Copy(that.cuit);
        cuit, stack, die := c, that.stack, that.die;
      }
    }

    /** operator== */
    method Equals(that: DieTreeIterator) returns (b: bool)
      ensures b == Equal(State(), that.State())
    {
      var end := new U.UnitIterator.End();
      var same := cuit.Equals(that.cuit);
      var atEnd := cuit.Equals(end);
      b := same && stack == that.stack && (atEnd || die == that.die);
    }

    /** operator++ (pimpl::move); a failing unit step raises its error. */
    method Move(dw: Dwarf) returns (r: Outcome<Error>)
      requires !U.IsEnd(cuit.State())
      modifies this, cuit
      ensures cuit == old(cuit)
      ensures r.Pass? <==> Step(dw, old(State())).Success?
      ensures r.Pass? ==> State() == Step(dw, old(State())).value
      ensures r.Fail? ==> r.error == Step(dw, old(State())).error
    {
      var child := Child(dw, die);
      if child.Some? {
        stack := stack + [DieOffset(die)];
        die := child.value;
        return Pass;
      }
      while true
        invariant cuit == old(cuit) && cuit.State() == old(cuit.State())
        invariant Climb(dw, cuit.State(), stack, die) == Step(dw, old(State()))
        decreases |stack|
      {
        var sib := SiblingOf(dw, die);
        if sib.Some? {
          die := sib.value;
          return Pass;
        }
        if stack == [] {
          break;
        }
        die := Rehydrate(dw, cuit.State(), stack[|stack| - 1]);
        stack := stack[..|stack| - 1];
        if stack == [] {
          break;
        }
      }
      var m := cuit.Move();
      if m.Fail? {
        return Fail(m.error);
      }
      stack := [];
      die := cuit.info.cudie;
      r := Pass;
    }

    /** die_tree_iterator::parent */
    method Parent(dw: Dwarf) returns (p: DieTreeIterator)
      requires !Equal(State(), EndState())
      ensures fresh(p) && fresh(p.cuit) && p.State() == ParentOf(dw, State())
    {
      if stack == [] {
        p := new DieTreeIterator.End();
        return;
      }
      p := new DieTreeIterator.Copy(this);
      p.die := Rehydrate(dw, cuit.State(), stack[|stack| - 1]);
      p.stack := stack[..|stack| - 1];
    }

    /** die_tree_iterator::stack: the entries met by following parent () until
        the end, reversed, i.e. the stacked ancestors followed by the current
        entry (StackIsAncestry), or, for an iterator left with a stack by its
        last unit, all but the outermost. */
    method Stack(dw: Dwarf) returns (r: seq<Die>)
      ensures !U.IsEnd(cuit.State()) ==> r == StackOf(dw, State())
      ensures U.IsEnd(cuit.State()) ==> r == StackOf(dw, State())[1..]
    {
      ghost var s := State();
      ghost var p := StackOf(dw, s);
      ghost var n := |stack|;
      var it := new DieTreeIterator.Copy(this);
      var end := new DieTreeIterator.End();
      var ret: seq<Die> := [];
      ghost var j := 0;
      var atEnd := it.Equals(end);
      while !atEnd
        invariant end.State() == EndState()
        invariant j <= n + 1 && |ret| == j
        invariant forall i :: 0 <= i < j ==> ret[i] == p[n - i]
        invariant j <= n ==> it.State() == DieTreeState(s.cuit, s.stack[..n - j], p[n - j])
        invariant j == n + 1 ==> it.State() == EndState()
        invariant U.IsEnd(s.cuit) ==> j <= n
        invariant atEnd <==> Equal(it.State(), EndState())
        decreases n + 1 - j
      {
        ret := ret + [it.die];
        it := it.Parent(dw);
        j := j + 1;
        atEnd := it.Equals(end);
      }
      r := Reversed(ret);
      if U.IsEnd(s.cuit) {
        assert r == p[1..];
      } else {
        assert r == p;
      }
    }
  }

  /** Iterating a die_tree_iterator from die_tree_iterator (dw) until it equals
      end () visits every entry of every unit exactly once, each unit's entries
      in pre-order, compile units before type units. */
  method Enumerate(dw: Dwarf) returns (r: Result<seq<Die>, Error>)
    requires WellFormed(dw)
    ensures r == Success(AllEntries(dw))
  {
    BeginWalks(dw);
    var c := DieTreeIterator.Create(dw);
    var it := c.value;
    var end := new DieTreeIterator.End();
    ghost var k := 0;
    var dies: seq<Die> := [];
    var atEnd := it.Equals(end);
    EndTest(dw, it.State(), k);
    while !atEnd
      invariant fresh(it) && fresh(it.cuit) && it != end && it.cuit != end.cuit
      invariant end.State() == EndState()
      invariant Walking(dw, it.State(), k)
      invariant dies + Pending(dw, it.State(), k) == AllEntries(dw)
      invariant atEnd <==> k == |AllUnits(dw)|
      decreases |Pending(dw, it.State(), k)|
    {
      ghost var pre := it.State();
      ghost var k' := UnitAfter(dw, pre, k);
      SeenGrows(dw, pre, k, dies);
      dies := dies + [it.die];
      var m := it.Move(dw);
      k := k';
      EndTest(dw, it.State(), k);
      atEnd := it.Equals(end);
    }
    assert Pending(dw, it.State(), k) == [];
    assert dies == AllEntries(dw);
    r := Success(dies);
  }
}
