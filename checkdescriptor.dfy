/**
 * checkdescriptor: the description of one dwarflint check, built through a
 * `create` object; its groups are a std::set<std::string> (kept here as the
 * set's ascending sequence of elements), filled from whitespace-separated
 * names and printed as "[a,b,...]".
 */
module CheckDescriptors {
  import opened Wrappers

  // ---------------------------------------------------------------------
  // std::string ordering and the ordered set of group names
  // ---------------------------------------------------------------------

  /** std::string's operator<: lexicographic by character, a proper prefix
      first. */
  predicate Less(a: string, b: string)
    decreases |a|
  {
    if |a| == 0 then |b| > 0
    else |b| > 0 && (a[0] < b[0] || (a[0] == b[0] && Less(a[1..], b[1..])))
  }

  lemma {:induction false} LessIrreflexive(a: string)
    ensures !Less(a, a)
  {
    if |a| > 0 {
      LessIrreflexive(a[1..]);
    }
  }

  lemma {:induction false} LessTransitive(a: string, b: string, c: string)
    requires Less(a, b) && Less(b, c)
    ensures Less(a, c)
  {
    if |a| > 0 && a[0] == b[0] && b[0] == c[0] {
      LessTransitive(a[1..], b[1..], c[1..]);
    }
  }

  /** Two strings neither of which is less than the other are equal, so the
      set's equivalence is equality. */
  lemma {:induction false} LessTotal(a: string, b: string)
    ensures Less(a, b) || Less(b, a) || a == b
  {
    if |a| > 0 && |b| > 0 && a[0] == b[0] {
      LessTotal(a[1..], b[1..]);
      if a[1..] == b[1..] {
        assert a == [a[0]] + a[1..] && b == [b[0]] + b[1..];
      }
    }
  }

  /** The elements of a std::set in iteration order: ascending, no two equal. */
  ghost predicate StrictlySorted(g: seq<string>)
  {
    forall i, j :: 0 <= i < j < |g| ==> Less(g[i], g[j])
  }

  function Members(s: seq<string>): set<string>
  {
    set x | x in s
  }

  /** The elements after the first of an ordered set are an ordered set
      above the first. */
  lemma SortedTail(g: seq<string>)
    requires StrictlySorted(g) && |g| > 0
    ensures StrictlySorted(g[1..])
    ensures forall y :: y in g[1..] ==> Less(g[0], y)
  {
    forall i, j | 0 <= i < j < |g| - 1 ensures Less(g[1..][i], g[1..][j]) {
      assert g[1..][i] == g[i + 1] && g[1..][j] == g[j + 1];
    }
    forall y | y in g[1..] ensures Less(g[0], y) {
      var k :| 0 <= k < |g| - 1 && g[1..][k] == y;
      assert g[k + 1] == y;
    }
  }

  /** Below every element of an ordered set, x can be put in front. */
  lemma SortedCons(x: string, g: seq<string>)
    requires StrictlySorted(g) && forall y :: y in g ==> Less(x, y)
    ensures StrictlySorted([x] + g)
  {
    forall i, j | 0 <= i < j < |g| + 1 ensures Less(([x] + g)[i], ([x] + g)[j]) {
      assert ([x] + g)[j] == g[j - 1];
      if i > 0 {
        assert ([x] + g)[i] == g[i - 1];
      }
    }
  }

  /** What is below the first element of an ordered set is below all of
      them, and so not in it. */
  lemma BelowFirst(g: seq<string>, x: string)
    requires StrictlySorted(g) && |g| > 0 && Less(x, g[0])
    ensures forall y :: y in g ==> Less(x, y)
    ensures x !in g
  {
    forall y | y in g ensures Less(x, y) {
      if y != g[0] {
        var k :| 0 <= k < |g| && g[k] == y;
        LessTransitive(x, g[0], y);
      }
    }
    LessIrreflexive(x);
  }

  /** std::set::find, walking the elements in order with operator< only:
      present exactly when x is one of them. */
  function Find(g: seq<string>, x: string): (r: bool)
    requires StrictlySorted(g)
    ensures r <==> x in g
  {
    if |g| == 0 then false
    else if Less(g[0], x) then
      SortedTail(g);
      LessIrreflexive(x);
      assert x in g <==> x in g[1..] by {
        assert g == [g[0]] + g[1..];
      }
      Find(g[1..], x)
    else if Less(x, g[0]) then
      BelowFirst(g, x);
      false
    else
      LessTotal(x, g[0]);
      true
  }

  /** std::set::insert: x added in order unless an equal element is there. */
  function Insert(g: seq<string>, x: string): (r: seq<string>)
    requires StrictlySorted(g)
    ensures StrictlySorted(r) && Members(r) == Members(g) + {x}
    ensures x in g ==> r == g
  {
    if |g| == 0 then [x]
    else if Less(g[0], x) then
      SortedTail(g);
      var rest := Insert(g[1..], x);
      assert g == [g[0]] + g[1..];
      LessIrreflexive(x);
      assert forall y :: y in rest ==> Less(g[0], y) by {
        forall y | y in rest ensures Less(g[0], y) {
          assert y in Members(rest);
        }
      }
      SortedCons(g[0], rest);
      [g[0]] + rest
    else if Less(x, g[0]) then
      BelowFirst(g, x);
      SortedCons(x, g);
      [x] + g
    else
      LessTotal(x, g[0]);
      g
  }

  /** The set after inserting each of xs in turn. */
  function InsertAll(g: seq<string>, xs: seq<string>): (r: seq<string>)
    requires StrictlySorted(g)
    ensures StrictlySorted(r) && Members(r) == Members(g) + Members(xs)
    decreases |xs|
  {
    if |xs| == 0 then g
    else
      assert Members(xs) == {xs[0]} + Members(xs[1..]) by {
        assert xs == [xs[0]] + xs[1..];
      }
      InsertAll(Insert(g, xs[0]), xs[1..])
  }

  /** Inserting the same names again changes nothing: duplicates collapse. */
  lemma {:induction false} InsertAllPresent(g: seq<string>, xs: seq<string>)
    requires StrictlySorted(g) && Members(xs) <= Members(g)
    ensures InsertAll(g, xs) == g
    decreases |xs|
  {
    if |xs| > 0 {
      assert xs[0] in Members(xs);
      assert Members(xs[1..]) <= Members(xs) by {
        assert xs == [xs[0]] + xs[1..];
      }
      InsertAllPresent(g, xs[1..]);
    }
  }

  // ---------------------------------------------------------------------
  // Whitespace-separated names: std::stringstream >> std::string
  // ---------------------------------------------------------------------

  /** isspace in the "C" locale: space, \t, \n, \v, \f and \r. */
  predicate IsSpace(c: char)
  {
    c == ' ' || ('\t' <= c <= '\r')
  }

  /** The length of the run of non-space characters s starts with. */
  function WordLength(s: string): (n: nat)
    ensures n <= |s| && (n < |s| ==> IsSpace(s[n]))
    ensures forall k :: 0 <= k < n ==> !IsSpace(s[k])
  {
    if |s| == 0 || IsSpace(s[0]) then 0 else 1 + WordLength(s[1..])
  }

  /** The names successive extractions read from s: leading whitespace
      skipped, then the longest run of non-space characters. */
  function Tokens(s: string): seq<string>
    decreases |s|
  {
    if |s| == 0 then []
    else if IsSpace(s[0]) then Tokens(s[1..])
    else
      var n := WordLength(s);
      [s[..n]] + Tokens(s[n..])
  }

  /** A word: non-empty and without whitespace. */
  predicate IsWord(t: string)
  {
    |t| > 0 && forall k :: 0 <= k < |t| ==> !IsSpace(t[k])
  }

  /** Every name read is a word. */
  lemma {:induction false} TokensAreWords(s: string)
    ensures forall t :: t in Tokens(s) ==> IsWord(t)
    decreases |s|
  {
    if |s| > 0 {
      if IsSpace(s[0]) {
        TokensAreWords(s[1..]);
      } else {
        var n := WordLength(s);
        TokensAreWords(s[n..]);
        assert Tokens(s) == [s[..n]] + Tokens(s[n..]);
      }
    }
  }

  /** A run of n non-space characters ended by a space or the end is a word
      of length n. */
  lemma {:induction false} WordLengthIs(s: string, n: nat)
    requires n <= |s| && (n < |s| ==> IsSpace(s[n]))
    requires forall k :: 0 <= k < n ==> !IsSpace(s[k])
    ensures WordLength(s) == n
  {
    if n > 0 {
      WordLengthIs(s[1..], n - 1);
    }
  }

  /** Names joined with single spaces. */
  function Spaced(ts: seq<string>): string
  {
    if |ts| == 0 then "" else if |ts| == 1 then ts[0] else ts[0] + " " + Spaced(ts[1..])
  }

  /** Reading back words joined with spaces gives the words. */
  lemma {:induction false} TokensOfSpaced(ts: seq<string>)
    requires forall t :: t in ts ==> IsWord(t)
    ensures Tokens(Spaced(ts)) == ts
  {
    if |ts| > 0 {
      var t := ts[0];
      assert IsWord(t);
      var rest := if |ts| == 1 then "" else " " + Spaced(ts[1..]);
      var s := t + rest;
      assert Spaced(ts) == s;
      WordLengthIs(s, |t|);
      assert s[..|t|] == t && s[|t|..] == rest;
      if |ts| > 1 {
        assert rest[1..] == Spaced(ts[1..]);
        TokensOfSpaced(ts[1..]);
        assert ts == [t] + ts[1..];
      }
    }
  }

  // ---------------------------------------------------------------------
  // Printing: operator<< (std::ostream &, checkgroups const &)
  // ---------------------------------------------------------------------

  /** The elements separated by commas. */
  function Join(gs: seq<string>): string
  {
    if |gs| == 0 then ""
    else if |gs| == 1 then gs[0]
    else Join(gs[..|gs| - 1]) + "," + gs[|gs| - 1]
  }

  /** The position of the last comma in s. */
  function LastComma(s: string): (r: Option<nat>)
    ensures r.Some? ==> (r.value < |s| && s[r.value] == ','
      && forall k :: r.value < k < |s| ==> s[k] != ',')
    ensures r.None? ==> forall k :: 0 <= k < |s| ==> s[k] != ','
  {
    if |s| == 0 then None
    else if s[|s| - 1] == ',' then Some(|s| - 1)
    else LastComma(s[..|s| - 1])
  }

  /** The comma-separated fields of s. */
  function Split(s: string): seq<string>
    decreases |s|
  {
    match LastComma(s)
    case None => [s]
    case Some(k) => Split(s[..k]) + [s[k + 1..]]
  }

  /** Printed names without commas are read back by splitting at the commas:
      the separators are exactly the |gs| - 1 commas between names, none
      leading and none trailing. */
  lemma {:induction false} SplitJoin(gs: seq<string>)
    requires |gs| > 0 && forall g :: g in gs ==> ',' !in g
    ensures Split(Join(gs)) == gs
  {
    var last := gs[|gs| - 1];
    assert ',' !in last;
    if |gs| == 1 {
      assert Split(gs[0]) == [gs[0]] by {
        assert LastComma(gs[0]).None?;
      }
    } else {
      var init := gs[..|gs| - 1];
      var s := Join(init) + "," + last;
      assert LastComma(s) == Some(|Join(init)|) by {
        LastCommaAfter(Join(init) + ",", last);
      }
      assert s[..|Join(init)|] == Join(init) && s[|Join(init)| + 1..] == last;
      assert forall g :: g in init ==> g in gs;
      SplitJoin(init);
      assert gs == init + [last];
    }
  }

  /** A comma-free tail does not move the last comma. */
  lemma {:induction false} LastCommaAfter(s: string, t: string)
    requires |s| > 0 && s[|s| - 1] == ',' && ',' !in t
    ensures LastComma(s + t) == Some(|s| - 1)
    decreases |t|
  {
    if |t| > 0 {
      assert (s + t)[..|s + t| - 1] == s + t[..|t| - 1];
      assert (s + t)[|s + t| - 1] == t[|t| - 1];
      LastCommaAfter(s, t[..|t| - 1]);
    } else {
      assert s + t == s;
    }
  }

  /** The output loop: '[', the elements in iteration order with a ','
      before every one but the first, then ']'. */
  method PrintGroups(groups: seq<string>) returns (out: string)
    ensures out == "[" + Join(groups) + "]"
  {
    out := "[";
    for i := 0 to |groups|
      invariant out == "[" + Join(groups[..i])
    {
      if i != 0 {
        out := out + ",";
      }
      out := out + groups[i];
      assert groups[..i + 1][..i] == groups[..i];
    }
    assert groups[..|groups|] == groups;
    out := out + "]";
  }

  /** The empty set prints as "[]"; a single group is printed bare inside
      the brackets. */
  lemma PrintedForms(g: string)
    ensures "[" + Join([]) + "]" == "[]"
    ensures "[" + Join([g]) + "]" == "[" + g + "]"
  {
  }

  // ---------------------------------------------------------------------
  // checkdescriptor::create and checkdescriptor
  // ---------------------------------------------------------------------

  /** The scanning loop of create::groups: the names read from s[i..] are
      those read from s[k..], k past any whitespace. */
  method SkipSpaces(s: string, i: nat) returns (k: nat)
    requires i <= |s|
    ensures i <= k <= |s| && (k < |s| ==> !IsSpace(s[k]))
    ensures Tokens(s[i..]) == Tokens(s[k..])
  {
    k := i;
    while k < |s| && IsSpace(s[k])
      invariant i <= k <= |s|
      invariant Tokens(s[i..]) == Tokens(s[k..])
    {
      assert s[k..][1..] == s[k + 1..];
      k := k + 1;
    }
  }

  /** The extraction of one name at a non-space character: the run up to the
      next whitespace, which is the first of the names read from s[i..]. */
  method ScanWord(s: string, i: nat) returns (j: nat)
    requires i < |s| && !IsSpace(s[i])
    ensures i < j <= |s|
    ensures Tokens(s[i..]) == [s[i..j]] + Tokens(s[j..])
  {
    j := i;
    while j < |s| && !IsSpace(s[j])
      invariant i <= j <= |s|
      invariant forall k :: i <= k < j ==> !IsSpace(s[k])
    {
      j := j + 1;
    }
    WordLengthIs(s[i..], j - i);
    assert s[i..][..j - i] == s[i..j] && s[i..][j - i..] == s[j..];
  }

  /** checkdescriptor::create: the builder of a descriptor. */
  class Create {
    /** name */
    var name: string
    /** desc: None for NULL */
    var desc: Option<string>
    /** g: the groups, ascending */
    var g: seq<string>
    /** p: the prerequisites, by name */
    var p: set<string>

    ghost predicate Valid()
      reads this
    {
      StrictlySorted(g)
    }

    /** create (char const *a_name) */
    constructor (aName: string)
      ensures Valid() && name == aName && desc == None && g == [] && p == {}
    {
      name := aName;
      desc := None;
      g := [];
      p := {};
    }

    /** create::groups (char const *a_groups): each name read from the
        string is inserted into g. */
    method Groups(aGroups: string)
      requires Valid()
      modifies this
      ensures Valid() && g == InsertAll(old(g), Tokens(aGroups))
      ensures name == old(name) && desc == old(desc) && p == old(p)
    {
      var i := SkipSpaces(aGroups, 0);
      assert aGroups[0..] == aGroups;
      while i < |aGroups|
        invariant i <= |aGroups| && (i < |aGroups| ==> !IsSpace(aGroups[i]))
        invariant StrictlySorted(g)
        invariant InsertAll(old(g), Tokens(aGroups)) == InsertAll(g, Tokens(aGroups[i..]))
        invariant name == old(name) && desc == old(desc) && p == old(p)
        decreases |aGroups| - i
      {
        var j := ScanWord(aGroups, i);
        var group := aGroups[i..j];
        assert ([group] + Tokens(aGroups[j..]))[1..] == Tokens(aGroups[j..]);
        g := Insert(g, group);
        i := SkipSpaces(aGroups, j);
      }
    }
  }

  /** Successive create::groups calls accumulate: the groups afterwards are
      those before and every name of either string, each once. */
  lemma GroupsAccumulate(g: seq<string>, a: string, b: string)
    requires StrictlySorted(g)
    ensures var after := InsertAll(InsertAll(g, Tokens(a)), Tokens(b));
      StrictlySorted(after) && Members(after) == Members(g) + Members(Tokens(a)) + Members(Tokens(b))
  {
  }

  /** A checkdescriptor. */
  class CheckDescriptor {
    const name: string
    const description: Option<string>
    const groups: seq<string>
    const prereq: set<string>

    ghost predicate Valid()
    {
      StrictlySorted(groups)
    }

    /** checkdescriptor (create const &c): a copy of the builder's fields. */
    constructor (c: Create)
      requires c.Valid()
      ensures Valid()
      ensures name == c.name && description == c.desc && groups == c.g && prereq == c.p
    {
      name := c.name;
      description := c.desc;
      groups := c.g;
      prereq := c.p;
    }

    /** in_group: whether group is one of the descriptor's groups. */
    function InGroup(group: string): (b: bool)
      requires Valid()
      ensures b <==> group in groups
    {
      Find(groups, group)
    }
  }
}
