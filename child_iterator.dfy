/**
 * child_iterator: the children of one entry, left to right, through
 * dwpp_child and dwpp_siblingof.
 */
module ChildIterators {
  import opened Wrappers
  import opened DwarfModel

  /** The state of child_iterator::pimpl: the current child, or None for the
      end iterator, whose entry carries the reserved address (void *) -1 that
      no real entry has. */
  type ChildState = Option<Die>

  /** child_iterator::end () */
  function EndState(): ChildState
  {
    None
  }

  /** pimpl (Dwarf_Die parent): the first child, or the end for a leaf. */
  function StartState(dw: Dwarf, parent: Die): ChildState
  {
    Child(dw, parent)
  }

  /** pimpl::operator==: the entries' addresses, i.e. their identities. */
  predicate Equal(a: ChildState, b: ChildState)
  {
    a == b
  }

  /** pimpl::move: asserts not at the end, then the next sibling or the end. */
  function Step(dw: Dwarf, s: ChildState): ChildState
    requires s.Some?
  {
    SiblingOf(dw, s.value)
  }

  /** A childless parent starts at the end; any other starts at its first child. */
  lemma StartIsFirstChild(dw: Dwarf, parent: Die)
    requires SectionOk(dw, parent.types) && Has(dw, parent)
    ensures Equal(StartState(dw, parent), EndState()) <==> Children(dw, parent) == []
    ensures Children(dw, parent) != [] ==> StartState(dw, parent) == Some(Children(dw, parent)[0])
  {
    ForwardOk(dw, parent);
  }

  /** One step from a child reaches the next one in the parent's child list, or
      the end after the last. */
  lemma StepWalksChain(dw: Dwarf, s: ChildState)
    requires s.Some? && SectionOk(dw, s.value.types) && Has(dw, s.value)
    ensures SiblingChain(dw, s) == [s.value] + SiblingChain(dw, Step(dw, s))
    ensures Step(dw, s).Some? ==> Has(dw, Step(dw, s).value) && Step(dw, s).value.types == s.value.types
  {
    ForwardOk(dw, s.value);
  }

  class ChildIterator {
    var die: ChildState

    /** child_iterator::end () */
    constructor End()
      ensures die == EndState()
    {
      die := None;
    }

    /** child_iterator (Dwarf_Die parent) */
    constructor (dw: Dwarf, parent: Die)
      ensures die == StartState(dw, parent)
    {
      die := Child(dw, parent);
    }

    /** The copy constructor: an independent iterator at the same child. */
    constructor Copy(that: ChildIterator)
      ensures die == that.die
    {
      die := that.die;
    }

    /** operator= */
    method Assign(that: ChildIterator)
      modifies this
      ensures die == old(that.die)
    {
      if this != that {
        die := that.die;
      }
    }

    /** operator== */
    method Equals(that: ChildIterator) returns (b: bool)
      ensures b == Equal(die, that.die)
    {
      b := die == that.die;
    }

    /** operator++ (pimpl::move); the source asserts it is not at the end. */
    method Move(dw: Dwarf)
      requires die.Some?
      modifies this
      ensures die == Step(dw, old(die))
    {
      var next := SiblingOf(dw, die.value);
      if next.None? {
        die := None;
      } else {
        die := next;
      }
    }
  }

  /** Iterating with a child_iterator from parent until it equals end () yields
      exactly the parent's children, left to right. */
  method ChildrenOf(dw: Dwarf, parent: Die) returns (cs: seq<Die>)
    requires SectionOk(dw, parent.types) && Has(dw, parent)
    ensures cs == Children(dw, parent)
  {
    ForwardOk(dw, parent);
    var it := new ChildIterator(dw, parent);
    var end := new ChildIterator.End();
    cs := [];
    var atEnd := it.Equals(end);
    while !atEnd
      invariant end.die == None
      invariant atEnd <==> it.die.None?
      invariant it.die.Some? ==> it.die.value.types == parent.types && Has(dw, it.die.value)
      invariant cs + SiblingChain(dw, it.die) == Children(dw, parent)
      decreases ChainRank(dw, it.die)
    {
      StepWalksChain(dw, it.die);
      cs := cs + [it.die.value];
      it.Move(dw);
      atEnd := it.Equals(end);
    }
  }
}
