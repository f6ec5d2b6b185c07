/**
 * attr_iterator: the attributes of one entry, pulled one at a time from the
 * callback-driven visitor dwarf_getattrs.  Each step runs the visitor from
 * the saved resume token with a callback that keeps the first attribute it
 * is offered and aborts on the second, so the visitor returns the token of
 * the attribute after the captured one, or 1 when none is left.
 */
module AttrIterators {
  import opened Wrappers
  import opened DwarfModel

  /** Dwarf_Attribute {0, 0, NULL, NULL} */
  const NoAttr: Attribute := Attribute(0, 0, 0)

  /** The token dwarf_getattrs returns once every attribute has been visited;
      it doubles as the end sentinel. */
  const DONE: int := 1

  /** The fields of attr_iterator::pimpl: the entry (None for NULL), the
      captured attribute, and the resume token (ptrdiff_t). */
  datatype AttrState = AttrState(die: Option<Die>, at: Attribute, token: int)

  /** pimpl (ptrdiff_t offset) */
  function RawState(offset: int): AttrState
  {
    AttrState(None, NoAttr, offset)
  }

  /** attr_iterator::end () */
  function EndState(): AttrState
  {
    RawState(DONE)
  }

  /** pimpl::operator==: the token and the captured attribute's code. */
  predicate Equal(a: AttrState, b: AttrState)
  {
    a.token == b.token && a.at.code == b.at.code
  }

  // ---------------------------------------------------------------------
  // dwarf_getattrs with this iterator's callback plugged in.

  datatype CallbackResult = CbOk | CbAbort

  /** What the visitor leaves behind: its return value and the attribute the
      callback data holds. */
  datatype Visited = Visited(token: int, at: Attribute)

  /** Offer attrs[j..] to the callback whose "been" flag is been and whose
      captured attribute is at: a callback that has already captured one aborts,
      and the visitor then returns the offset of the attribute it was offered;
      when the attributes run out the visitor returns 1. */
  function Visit(attrs: seq<Attribute>, j: nat, been: bool, at: Attribute): Visited
    requires j <= |attrs|
    decreases |attrs| - j
  {
    if j == |attrs| then Visited(DONE, at)
    else if been then Visited(attrs[j].specOffset, at)
    else Visit(attrs, j + 1, true, attrs[j])
  }

  function FindAttr(attrs: seq<Attribute>, token: int, from: nat): (r: Option<nat>)
    ensures r.Some? ==> from <= r.value < |attrs| && attrs[r.value].specOffset == token
    decreases |attrs| - from
  {
    if from >= |attrs| then None
    else if attrs[from].specOffset == token then Some(from)
    else FindAttr(attrs, token, from + 1)
  }

  /** Where dwarf_getattrs resumes: token 0 is the first attribute, any other
      token the attribute whose specification starts there. */
  function ResumeIndex(attrs: seq<Attribute>, token: int): (r: Option<nat>)
    ensures r.Some? ==> r.value <= |attrs|
  {
    if token == 0 then Some(0) else FindAttr(attrs, token, 0)
  }

  /** dwarf_getattrs (die, callback, data, token): -1 for a NULL or unknown
      entry or a token that resumes nowhere. */
  function GetAttrs(dw: Dwarf, die: Option<Die>, token: int, been: bool, at: Attribute): Visited
  {
    if die.None? || !Has(dw, die.value) then Visited(-1, at)
    else
      var attrs := EntryOf(dw, die.value).attrs;
      match ResumeIndex(attrs, token)
      case None => Visited(-1, at)
      case Some(j) => Visit(attrs, j, been, at)
  }

  /** pimpl::move: at token 1 reset to the end state; otherwise run the visitor
      with a fresh callback (been = false) that writes into the captured
      attribute; -1 raises an error. */
  function Step(dw: Dwarf, s: AttrState): Result<AttrState, Error>
  {
    if s.token == DONE then Success(EndState())
    else
      var v := GetAttrs(dw, s.die, s.token, false, s.at);
      if v.token == -1 then Failure(MalformedAttributes)
      else Success(AttrState(s.die, v.at, v.token))
  }

  /** pimpl (Dwarf_Die *die): token 0, no attribute, then one move (). */
  function Start(dw: Dwarf, die: Die): Result<AttrState, Error>
  {
    Step(dw, AttrState(Some(die), NoAttr, 0))
  }

  // ---------------------------------------------------------------------
  // Specification.

  /** An attribute list as the abbreviation lays it out: the first
      specification at offset 0, each later one at least two bytes (two
      ULEB128 numbers) after the previous one, and no attribute with code 0. */
  ghost predicate AttrsOk(attrs: seq<Attribute>)
  {
    && (|attrs| > 0 ==> attrs[0].specOffset == 0)
    && (forall i :: 0 < i < |attrs| ==> attrs[i].specOffset >= attrs[i - 1].specOffset + 2)
    && (forall i :: 0 <= i < |attrs| ==> attrs[i].code != 0)
  }

  /** The state after capturing attrs[j]: the token of the next attribute, or 1
      when attrs[j] is the last. */
  function After(die: Die, attrs: seq<Attribute>, j: nat): AttrState
    requires j < |attrs|
  {
    AttrState(Some(die), attrs[j], if j + 1 < |attrs| then attrs[j + 1].specOffset else DONE)
  }

  /** Within one step the callback keeps only the first attribute offered: the
      visitor captures attrs[j] and stops at the attribute after it. */
  lemma VisitCapturesOne(attrs: seq<Attribute>, j: nat, at: Attribute)
    requires j <= |attrs|
    ensures j == |attrs| ==> Visit(attrs, j, false, at) == Visited(DONE, at)
    ensures j < |attrs| ==>
      Visit(attrs, j, false, at) == Visited(if j + 1 < |attrs| then attrs[j + 1].specOffset else DONE, attrs[j])
  {
  }

  /** A callback that has captured its attribute aborts at once, so the
      visitor changes nothing and returns the current attribute's offset. */
  lemma VisitAfterCaptureAborts(attrs: seq<Attribute>, j: nat, at: Attribute)
    requires j < |attrs|
    ensures Visit(attrs, j, true, at) == Visited(attrs[j].specOffset, at)
  {
  }

  lemma {:induction false} OffsetsIncrease(attrs: seq<Attribute>, i: nat, j: nat)
    requires AttrsOk(attrs) && i < j < |attrs|
    ensures attrs[i].specOffset + 2 <= attrs[j].specOffset
    decreases j - i
  {
    if i + 1 < j {
      OffsetsIncrease(attrs, i, j - 1);
    }
  }

  lemma {:induction false} FindAttrHit(attrs: seq<Attribute>, j: nat, from: nat)
    requires AttrsOk(attrs) && from <= j < |attrs|
    ensures FindAttr(attrs, attrs[j].specOffset, from) == Some(j)
    decreases j - from
  {
    if from < j {
      OffsetsIncrease(attrs, from, j);
      FindAttrHit(attrs, j, from + 1);
    }
  }

  /** The resume token the visitor hands out for attrs[j] (j > 0) is never 0, 1
      or -1, and resumes at attrs[j]. */
  lemma ResumeAt(attrs: seq<Attribute>, j: nat)
    requires AttrsOk(attrs) && 0 < j < |attrs|
    ensures attrs[j].specOffset >= 2
    ensures ResumeIndex(attrs, attrs[j].specOffset) == Some(j)
  {
    OffsetsIncrease(attrs, 0, j);
    FindAttrHit(attrs, j, 0);
  }

  /** Construction captures the first attribute; for an entry without
      attributes it leaves code 0 and token 1, which equals end (). */
  lemma StartAt(dw: Dwarf, die: Die)
    requires Has(dw, die)
    ensures var attrs := EntryOf(dw, die).attrs;
      && Start(dw, die).Success?
      && (attrs == [] ==> Start(dw, die).value == AttrState(Some(die), NoAttr, DONE)
                          && Equal(Start(dw, die).value, EndState()))
      && (attrs != [] ==> Start(dw, die).value == After(die, attrs, 0))
  {
    VisitCapturesOne(EntryOf(dw, die).attrs, 0, NoAttr);
  }

  /** One increment after capturing attrs[j] captures attrs[j + 1], or reaches
      the end after the last attribute. */
  lemma StepAt(dw: Dwarf, die: Die, j: nat)
    requires Has(dw, die) && AttrsOk(EntryOf(dw, die).attrs) && j < |EntryOf(dw, die).attrs|
    ensures var attrs := EntryOf(dw, die).attrs;
      && Step(dw, After(die, attrs, j)).Success?
      && (j + 1 < |attrs| ==> Step(dw, After(die, attrs, j)).value == After(die, attrs, j + 1))
      && (j + 1 == |attrs| ==> Step(dw, After(die, attrs, j)).value == EndState())
  {
    var attrs := EntryOf(dw, die).attrs;
    if j + 1 < |attrs| {
      ResumeAt(attrs, j + 1);
      VisitCapturesOne(attrs, j + 1, attrs[j]);
    }
  }

  /** The iterator on the last attribute (token 1, non-zero code) differs from
      end () (token 1, code 0); every position before the end does. */
  lemma AfterIsNotEnd(die: Die, attrs: seq<Attribute>, j: nat)
    requires AttrsOk(attrs) && j < |attrs|
    ensures !Equal(After(die, attrs, j), EndState())
  {
  }

  // ---------------------------------------------------------------------
  // The iterator object.

  /** cb_data: where the callback writes the attribute, and whether it has
      been called before within this step. */
  class CallbackData {
    var at: Attribute
    var been: bool

    constructor (at0: Attribute)
      ensures at == at0 && !been
    {
      at, been := at0, false;
    }
  }

  /** pimpl::callback: copy the first attribute and ask for one more call (to
      learn the next offset); abort on any later call. */
  method Callback(at: Attribute, d: CallbackData) returns (r: CallbackResult)
    modifies d
    ensures old(d.been) ==> r == CbAbort && d.at == old(d.at) && d.been
    ensures !old(d.been) ==> r == CbOk && d.at == at && d.been
  {
    if d.been {
      return CbAbort;
    }
    d.at := at;
    d.been := true;
    r := CbOk;
  }

  /** dwarf_getattrs driving Callback: offers the attributes from the resume
      point until the callback aborts or none is left. */
  method RunGetAttrs(dw: Dwarf, die: Option<Die>, d: CallbackData, token: int) returns (next: int)
    modifies d
    ensures Visited(next, d.at) == GetAttrs(dw, die, token, old(d.been), old(d.at))
  {
    if die.None? || !Has(dw, die.value) {
      return -1;
    }
    var attrs := EntryOf(dw, die.value).attrs;
    var start := ResumeIndex(attrs, token);
    if start.None? {
      return -1;
    }
    var j := start.value;
    while j < |attrs|
      invariant j <= |attrs|
      invariant Visit(attrs, j, d.been, d.at) == Visit(attrs, start.value, old(d.been), old(d.at))
    {
      var rc := Callback(attrs[j], d);
      if rc == CbAbort {
        return attrs[j].specOffset;
      }
      j := j + 1;
    }
    next := DONE;
  }

  class AttrIterator {
    var die: Option<Die>
    var at: Attribute
    var token: int

    function State(): AttrState
      reads this
    {
      AttrState(die, at, token)
    }

    /** attr_iterator (ptrdiff_t offset) */
    constructor Raw(offset: int)
      ensures State() == RawState(offset)
    {
      die, at, token := None, NoAttr, offset;
    }

    /** attr_iterator::end () */
    constructor End()
      ensures State() == EndState()
    {
      die, at, token := None, NoAttr, DONE;
    }

    /** The copy constructor. */
    constructor Copy(that: AttrIterator)
      ensures State() == that.State()
    {
      die, at, token := that.die, that.at, that.token;
    }

    /** operator= */
    method Assign(that: AttrIterator)
      modifies this
      ensures State() == old(that.State())
    {
      if this != that {
        die, at, token := that.die, that.at, that.token;
      }
    }

    /** operator== */
    method Equals(that: AttrIterator) returns (b: bool)
      ensures b == Equal(State(), that.State())
    {
      b := token == that.token && at.code == that.at.code;
    }

    /** operator++ (pimpl::move).  A visitor failure raises MalformedAttributes. */
    method Move(dw: Dwarf) returns (r: Outcome<Error>)
      modifies this
      ensures r.Pass? <==> Step(dw, old(State())).Success?
      ensures r.Pass? ==> State() == Step(dw, old(State())).value
      ensures r.Fail? ==> r.error == MalformedAttributes
    {
      if token == DONE {
        die, at, token := None, NoAttr, DONE;
        return Pass;
      }
      var data := new CallbackData(at);
      token := RunGetAttrs(dw, die, data, token);
      at := data.at;
      if token == -1 {
        return Fail(MalformedAttributes);
      }
      r := Pass;
    }

    /** attr_iterator (Dwarf_Die *die): a fresh iterator on the first attribute. */
    static method Create(dw: Dwarf, d: Die) returns (r: Result<AttrIterator, Error>)
      ensures r.Success? <==> Start(dw, d).Success?
      ensures r.Success? ==> fresh(r.value) && r.value.State() == Start(dw, d).value
    {
      var it := new AttrIterator.Raw(0);
      it.die := Some(d);
      var m := it.Move(dw);
      if m.Fail? {
        return Failure(m.error);
      }
      r := Success(it);
    }
  }

  /** Iterating an attr_iterator from an entry until it equals end () yields
      the entry's attributes in order, after exactly as many increments as
      there are attributes. */
  method AttributesOf(dw: Dwarf, d: Die) returns (r: Result<seq<Attribute>, Error>, increments: nat)
    requires Has(dw, d) && AttrsOk(EntryOf(dw, d).attrs)
    ensures r == Success(EntryOf(dw, d).attrs)
    ensures increments == |EntryOf(dw, d).attrs|
  {
    ghost var attrs := EntryOf(dw, d).attrs;
    StartAt(dw, d);
    var c := AttrIterator.Create(dw, d);
    var it := c.value;
    var end := new AttrIterator.End();
    var got: seq<Attribute> := [];
    increments := 0;
    var atEnd := it.Equals(end);
    if attrs != [] {
      AfterIsNotEnd(d, attrs, 0);
    }
    while !atEnd
      invariant end.State() == EndState()
      invariant increments <= |attrs|
      invariant got == attrs[..increments]
      invariant increments < |attrs| ==> it.State() == After(d, attrs, increments)
      invariant increments == |attrs| ==> Equal(it.State(), EndState())
      invariant atEnd <==> increments == |attrs|
      decreases |attrs| - increments
    {
      got := got + [it.at];
      StepAt(dw, d, increments);
      var m := it.Move(dw);
      increments := increments + 1;
      if increments < |attrs| {
        AfterIsNotEnd(d, attrs, increments);
      }
      atEnd := it.Equals(end);
    }
    assert got == attrs;
    r := Success(got);
  }
}
