/**
 * unit_iterator: walks the compile units of .debug_info and then the type
 * units of .debug_types, reading one unit header per step with
 * dwarf_next_unit and resolving the unit's root entry.
 */
module UnitIterators {
  import opened Wrappers
  import opened DwarfModel

  /** unit_info: the header fields of the current unit and its root entry. */
  datatype UnitInfo = UnitInfo(cudie: Die, version: nat, abbrevOffset: nat, addressSize: nat,
                               offsetSize: nat, typeSignature: nat)

  /** A default-constructed unit_info. */
  const NoInfo: UnitInfo := UnitInfo(Die(false, 0), 0, 0, 0, 0, 0)

  /** The fields of unit_iterator::pimpl. */
  datatype UnitState = UnitState(dw: Option<Dwarf>, offset: Off, oldOffset: Off,
                                 info: UnitInfo, types: bool)

  /** pimpl (Dwarf_Off, bool): no Dwarf handle, the given offset and phase. */
  function RawState(off: Off, types: bool): UnitState
  {
    UnitState(None, off, 0, NoInfo, types)
  }

  /** unit_iterator::end (): offset -1 in the type-unit phase. */
  function EndState(): UnitState
  {
    RawState(NO_OFFSET, true)
  }

  /** pimpl::is_end */
  predicate IsEnd(u: UnitState)
  {
    u.offset == NO_OFFSET && u.types
  }

  /** pimpl::operator==: the phase and the offset, nothing else. */
  predicate Equal(a: UnitState, b: UnitState)
  {
    a.types == b.types && a.offset == b.offset
  }

  /** The header fields move () stores in unit_info for unit h, whose root it
      resolves at the unit's start plus the header size; the type signature is
      only written in the type-unit phase. */
  function InfoOf(u: UnitState, h: UnitHeader): UnitInfo
  {
    UnitInfo(OffDie(u.types, u.offset + h.headerSize), h.version, h.abbrevOffset, h.addressSize,
             h.offsetSize, if u.types then h.typeSignature else u.info.typeSignature)
  }

  /** pimpl::move: the next unit; on "no more units" in the compile-unit phase,
      the first type unit; on "no more units" in the type-unit phase, the end. */
  function Step(u: UnitState): Result<UnitState, Error>
    requires !IsEnd(u)
    decreases if u.types then 0 else 1
  {
    match NextUnitAt(u.dw, u.offset, u.types)
    case Malformed => Failure(InvalidFormat)
    case NoMore =>
      if u.types then Success(EndState())
      else Step(u.(types := true, offset := 0, oldOffset := 0))
    case Found(h) =>
      Success(u.(oldOffset := u.offset, offset := h.start + h.length, info := InfoOf(u, h)))
  }

  /** The state pimpl (Dwarf *) starts from before its move (). */
  function BeginStart(dw: Dwarf): UnitState
  {
    UnitState(Some(dw), 0, 0, NoInfo, false)
  }

  /** unit_iterator (dw): the first unit. */
  function Begin(dw: Dwarf): Result<UnitState, Error>
  {
    Step(BeginStart(dw))
  }

  /** The state pimpl (Dwarf *, Dwarf_Die) starts from before its move ():
      the unit's start is the root's offset minus its unit-local offset (in
      64-bit unsigned arithmetic), the phase is "the root is a type unit". */
  function RootStart(dw: Dwarf, cudie: Die): UnitState
  {
    UnitState(Some(dw), (DieOffset(cudie) - CuOffset(dw, cudie)) % OFF_MODULUS, 0, NoInfo,
              Tag(dw, cudie) == DW_TAG_type_unit)
  }

  /** unit_iterator (dw, cudie): the unit whose root is cudie.  move () asserts
      that the start state is not the end. */
  function FromRoot(dw: Dwarf, cudie: Die): Result<UnitState, Error>
    requires !IsEnd(RootStart(dw, cudie))
  {
    Step(RootStart(dw, cudie))
  }

  // ---------------------------------------------------------------------
  // Specification: where an iterator stands in the list of all units.

  /** u stands at the k-th unit of AllUnits (dw), or k is one past the last
      unit and u is the end iterator. */
  ghost predicate At(dw: Dwarf, u: UnitState, k: nat)
  {
    if k < |AllUnits(dw)| then AtHeader(dw, u, AllUnits(dw)[k].types, AllUnits(dw)[k].header)
    else k == |AllUnits(dw)| && IsEnd(u)
  }

  /** u has just read header h of phase types. */
  ghost predicate AtHeader(dw: Dwarf, u: UnitState, types: bool, h: UnitHeader)
  {
    && u.dw == Some(dw)
    && u.types == types
    && u.oldOffset == h.start
    && u.offset == h.start + h.length
    && u.info.cudie == RootDie(types, h)
  }

  /** The end test agrees with equality against end (). */
  lemma IsEndIsEqualToEnd(u: UnitState)
    ensures IsEnd(u) <==> Equal(u, EndState())
    ensures u.offset == NO_OFFSET && !u.types ==> !Equal(u, EndState())
  {
  }

  /** Equality ignores the Dwarf handle, the old offset and unit_info. */
  lemma EqualIgnoresInfo(u: UnitState, dw: Option<Dwarf>, old_: Off, info: UnitInfo)
    ensures Equal(u, u.(dw := dw, oldOffset := old_, info := info))
  {
  }

  lemma EqualIsEquivalence(a: UnitState, b: UnitState, c: UnitState)
    ensures Equal(a, a)
    ensures Equal(a, b) ==> Equal(b, a)
    ensures Equal(a, b) && Equal(b, c) ==> Equal(a, c)
  {
  }

  /** An iterator at a unit is not at the end, and one past the last unit it is. */
  lemma AtEnd(dw: Dwarf, u: UnitState, k: nat)
    requires WellFormed(dw) && At(dw, u, k)
    ensures IsEnd(u) <==> k == |AllUnits(dw)|
  {
    if k < |AllUnits(dw)| {
      AtOffsetBelowEnd(dw, u, k);
    }
  }

  lemma AtOffsetBelowEnd(dw: Dwarf, u: UnitState, k: nat)
    requires WellFormed(dw) && k < |AllUnits(dw)| && At(dw, u, k)
    ensures u.offset <= PhaseEnd(Units(dw, u.types)) < NO_OFFSET
  {
    AllUnitsAt(dw, k);
    var t := u.types;
    var hs := Units(dw, t);
    var i := if t then k - |dw.compileUnits| else k;
    assert hs[i] == AllUnits(dw)[k].header;
    if i + 1 < |hs| {
      ChainedBelowEnd(hs, i + 1);
    }
  }

  /** Two iterators at the same unit are equal. */
  lemma AtUnique(dw: Dwarf, a: UnitState, b: UnitState, k: nat)
    requires At(dw, a, k) && At(dw, b, k)
    ensures Equal(a, b)
  {
  }

  /** Stepping into the type-unit phase from its offset 0: the first type unit,
      or the end when there is none. */
  lemma StepIntoTypes(dw: Dwarf, u: UnitState)
    requires WellFormed(dw)
    requires u.dw == Some(dw) && u.types && u.offset == 0
    ensures Step(u).Success? && At(dw, Step(u).value, |dw.compileUnits|)
  {
    var hs := Units(dw, true);
    if |hs| > 0 {
      NextUnitAtStart(dw, true, 0);
      AllUnitsAt(dw, |dw.compileUnits|);
    } else {
      NextUnitAtEnd(dw, true);
    }
  }

  /** Within one phase: after the i-th header, the next step reads the
      (i+1)-th, or meets "no more units" after the last. */
  lemma StepInPhase(dw: Dwarf, u: UnitState, t: bool, i: nat)
    requires Chained(Units(dw, t)) && i < |Units(dw, t)| && AtHeader(dw, u, t, Units(dw, t)[i])
    ensures i + 1 < |Units(dw, t)| ==> NextUnitAt(u.dw, u.offset, t) == Found(Units(dw, t)[i + 1])
    ensures i + 1 == |Units(dw, t)| ==> NextUnitAt(u.dw, u.offset, t) == NoMore
  {
    var hs := Units(dw, t);
    if i + 1 < |hs| {
      assert u.offset == hs[i + 1].start;
      NextUnitAtStart(dw, t, i + 1);
    } else {
      NextUnitAtEnd(dw, t);
    }
  }

  /** Stepping from the k-th unit reaches the (k+1)-th, or the end after the
      last: all compile units, then all type units, then the end. */
  lemma StepAt(dw: Dwarf, u: UnitState, k: nat)
    requires WellFormed(dw) && k < |AllUnits(dw)| && At(dw, u, k)
    ensures !IsEnd(u) && Step(u).Success? && At(dw, Step(u).value, k + 1)
  {
    AtEnd(dw, u, k);
    AllUnitsAt(dw, k);
    var ncu := |dw.compileUnits|;
    if k < ncu {
      assert Units(dw, false)[k] == AllUnits(dw)[k].header;
      StepInPhase(dw, u, false, k);
      if k + 1 < ncu {
        AllUnitsAt(dw, k + 1);
      } else {
        StepIntoTypes(dw, u.(types := true, offset := 0, oldOffset := 0));
      }
    } else {
      assert Units(dw, true)[k - ncu] == AllUnits(dw)[k].header;
      StepInPhase(dw, u, true, k - ncu);
      if k + 1 < |AllUnits(dw)| {
        AllUnitsAt(dw, k + 1);
      }
    }
  }

  /** unit_iterator (dw) stands at the first unit (the end if there is none). */
  lemma BeginAt(dw: Dwarf)
    requires WellFormed(dw)
    ensures Begin(dw).Success? && At(dw, Begin(dw).value, 0)
  {
    var hs := Units(dw, false);
    if |hs| > 0 {
      NextUnitAtStart(dw, false, 0);
      AllUnitsAt(dw, 0);
    } else {
      NextUnitAtEnd(dw, false);
      StepIntoTypes(dw, BeginStart(dw).(types := true, offset := 0, oldOffset := 0));
    }
  }

  /** unit_iterator (dw, cudie) for the root of the k-th unit stands at the k-th
      unit, so it equals the forward-scanning iterator there, and stepping both
      in lockstep keeps them equal up to the end (StepAt, AtUnique). */
  lemma FromRootAt(dw: Dwarf, k: nat)
    requires WellFormed(dw) && k < |AllUnits(dw)|
    ensures !IsEnd(RootStart(dw, UnitRoot(dw, k)))
    ensures FromRoot(dw, UnitRoot(dw, k)).Success?
    ensures At(dw, FromRoot(dw, UnitRoot(dw, k)).value, k)
  {
    UnitRootOk(dw, k);
    AllUnitsAt(dw, k);
    var r := AllUnits(dw)[k];
    var t := r.types;
    var hs := Units(dw, t);
    var i := if t then k - |dw.compileUnits| else k;
    assert hs[i] == r.header;
    ChainedBelowEnd(hs, i);
    var s := RootStart(dw, UnitRoot(dw, k));
    assert s.offset == r.header.start;
    assert s.types == t;
    NextUnitAtStart(dw, t, i);
  }

  /** Stepping depends only on the Dwarf handle, the phase and the offset, so
      equal iterators over the same Dwarf stay equal when both step. */
  lemma StepRespectsEqual(a: UnitState, b: UnitState)
    requires Equal(a, b) && a.dw == b.dw && !IsEnd(a)
    ensures !IsEnd(b)
    ensures Step(a).Success? <==> Step(b).Success?
    ensures Step(a).Success? ==> Equal(Step(a).value, Step(b).value) && Step(a).value.dw == Step(b).value.dw
    decreases if a.types then 0 else 1
  {
    if NextUnitAt(a.dw, a.offset, a.types).NoMore? && !a.types {
      StepRespectsEqual(a.(types := true, offset := 0, oldOffset := 0),
                        b.(types := true, offset := 0, oldOffset := 0));
    }
  }

  // ---------------------------------------------------------------------
  // The iterator object.

  class UnitIterator {
    var dw: Option<Dwarf>
    var offset: Off
    var oldOffset: Off
    var info: UnitInfo
    var types: bool

    function State(): UnitState
      reads this
    {
      UnitState(dw, offset, oldOffset, info, types)
    }

    /** unit_iterator (Dwarf_Off, bool) */
    constructor Raw(off: Off, t: bool)
      ensures State() == RawState(off, t)
    {
      dw, offset, oldOffset, info, types := None, off, 0, NoInfo, t;
    }

    /** unit_iterator::end () */
    constructor End()
      ensures State() == EndState() && IsEnd(State())
    {
      dw, offset, oldOffset, info, types := None, NO_OFFSET, 0, NoInfo, true;
    }

    /** The copy constructor: a new, independent pimpl with the same fields. */
    constructor Copy(that: UnitIterator)
      ensures State() == that.State()
    {
      dw, offset, oldOffset, info, types := that.dw, that.offset, that.oldOffset, that.info, that.types;
    }

    /** operator=: copies the fields of that (nothing when that is this). */
    method Assign(that: UnitIterator)
      modifies this
      ensures State() == old(that.State())
    {
      if this != that {
        dw, offset, oldOffset, info, types := that.dw, that.offset, that.oldOffset, that.info, that.types;
      }
    }

    /** pimpl::is_end */
    method AtEnd() returns (b: bool)
      ensures b == IsEnd(State())
    {
      b := offset == NO_OFFSET && types;
    }

    /** operator== */
    method Equals(that: UnitIterator) returns (b: bool)
      ensures b == Equal(State(), that.State())
    {
      b := types == that.types && offset == that.offset;
    }

    /** pimpl::done: overwrite the whole state with end (). */
    method Done()
      modifies this
      ensures State() == EndState()
    {
      var e := new UnitIterator.End();
      dw, offset, oldOffset, info, types := e.dw, e.offset, e.oldOffset, e.info, e.types;
    }

    /** operator++ (pimpl::move).  Asserts that this is not the end; a
        malformed header raises InvalidFormat. */
    method Move() returns (r: Outcome<Error>)
      requires !IsEnd(State())
      modifies this
      ensures r.Pass? <==> Step(old(State())).Success?
      ensures r.Pass? ==> State() == Step(old(State())).value
      ensures r.Fail? ==> r.error == Step(old(State())).error
      decreases if types then 0 else 1
    {
      oldOffset := offset;
      var rc := NextUnitAt(dw, offset, types);
      match rc
      case Malformed =>
        r := Fail(InvalidFormat);
      case NoMore =>
        if types {
          Done();
          r := Pass;
        } else {
          types := true;
          offset := 0;
          oldOffset := 0;
          r := Move();
        }
      case Found(h) =>
        offset := h.start + h.length;
        info := UnitInfo(OffDie(types, oldOffset + h.headerSize), h.version, h.abbrevOffset,
                         h.addressSize, h.offsetSize,
                         if types then h.typeSignature else info.typeSignature);
        r := Pass;
    }

    /** unit_iterator (dw): a fresh iterator at the first unit. */
    static method Create(dw: Dwarf) returns (r: Result<UnitIterator, Error>)
      ensures r.Success? <==> Begin(dw).Success?
      ensures r.Success? ==> fresh(r.value) && r.value.State() == Begin(dw).value
    {
      var it := new UnitIterator.Raw(0, false);
      it.dw := Some(dw);
      var m := it.Move();
      if m.Fail? {
        return Failure(m.error);
      }
      r := Success(it);
    }

    /** unit_iterator (dw, cudie): a fresh iterator at the unit whose root is cudie. */
    static method CreateFromRoot(dw: Dwarf, cudie: Die) returns (r: Result<UnitIterator, Error>)
      requires !IsEnd(RootStart(dw, cudie))
      ensures r.Success? <==> FromRoot(dw, cudie).Success?
      ensures r.Success? ==> fresh(r.value) && r.value.State() == FromRoot(dw, cudie).value
    {
      var it := new UnitIterator.Raw((DieOffset(cudie) - CuOffset(dw, cudie)) % OFF_MODULUS,
                                     Tag(dw, cudie) == DW_TAG_type_unit);
      it.dw := Some(dw);
      var m := it.Move();
      if m.Fail? {
        return Failure(m.error);
      }
      r := Success(it);
    }
  }
}
