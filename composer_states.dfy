/**
 * The composer as a value: the attributes' snapshots in list order and the
 * two flags of the enumeration. Every operation of the composer is stated
 * here as a function of that value; the class in Composers is proved to
 * follow these functions.
 */
module ComposerStates {
  import opened Wrappers
  import opened Bytes
  import opened Values
  import opened Atts
  import opened Odometer
  import opened Lists
  import opened Configs

  /** The Lua oracle: the result of running a chunk with the composer as
      its argument; None when loading or calling it fails. */
  type Lua = (CStr, seq<AttState>) -> Option<CStr>

  predicate AllWellFormed(sts: seq<AttState>) {
    forall i | 0 <= i < |sts| :: WellFormed(sts[i])
  }

  /** No two attributes carry the same name. */
  predicate UniqueNames(sts: seq<AttState>) {
    forall i, j | 0 <= i < j < |sts| :: sts[i].name != sts[j].name
  }

  predicate Good(sts: seq<AttState>) {
    AllWellFormed(sts) && UniqueNames(sts)
  }

  /** list_find_first with att_name_equal_to: the first attribute with the
      name; with unique names, the only one. */
  function Lookup(sts: seq<AttState>, n: CStr): (r: Option<nat>)
    ensures r.None? <==> forall i | 0 <= i < |sts| :: sts[i].name != n
    ensures r.Some? ==> r.value < |sts| && sts[r.value].name == n
    ensures r.Some? ==> forall i | 0 <= i < r.value :: sts[i].name != n
    ensures r.Some? && UniqueNames(sts) ==>
      forall i | 0 <= i < |sts| && sts[i].name == n :: i == r.value
  {
    FirstMatch(sts, (a: AttState) => a.name == n)
  }

  /** pathcomp_eval_nocopy: the attribute's current alternative, evaluated
      with the composer as context; None for an unknown name. */
  function EvalIn(sts: seq<AttState>, n: CStr, lua: Lua): (r: Option<CStr>)
    requires AllWellFormed(sts)
    ensures Lookup(sts, n).None? ==> r.None?
  {
    match Lookup(sts, n)
    case None => None
    case Some(i) => EvalAtt(sts[i], sts, lua)
  }

  /** The attribute found by the name gives its current alternative: a
      literal as it is, Lua code through the interpreter with the
      attributes as context. */
  lemma EvalInCases(sts: seq<AttState>, n: CStr, lua: Lua)
    requires AllWellFormed(sts)
    ensures Lookup(sts, n).Some? ==> var a := sts[Lookup(sts, n).value];
      && (a.values[a.current].Literal? ==> EvalIn(sts, n, lua) == Some(a.values[a.current].literal))
      && (a.values[a.current].LuaCode? ==> EvalIn(sts, n, lua) == lua(a.values[a.current].source, sts))
  {
  }

  /** The pathname of pathcomp_yield from the values of `root` and
      `compose`. */
  function Joined(root: Option<CStr>, compose: Option<CStr>): Option<CStr> {
    if root.Some? && root.value != [] then
      var head := Concat(root.value, "/");
      if compose.Some? && compose.value != [] then Some(Concat(head, compose.value)) else Some(head)
    else if compose.Some? && compose.value != [] then compose
    else None
  }

  /**
   * A non-empty root followed by a slash, then a non-empty compose; no
   * path exactly when both are missing or empty.
   */
  lemma JoinedCases(root: Option<CStr>, compose: Option<CStr>)
    ensures Joined(root, compose).None? <==>
      (root.None? || root.value == []) && (compose.None? || compose.value == [])
    ensures root.Some? && root.value != [] && compose.Some? && compose.value != [] ==>
      Joined(root, compose) == Some(root.value + "/" + compose.value)
    ensures root.Some? && root.value != [] && (compose.None? || compose.value == []) ==>
      Joined(root, compose) == Some(root.value + "/")
    ensures (root.None? || root.value == []) && compose.Some? && compose.value != [] ==>
      Joined(root, compose) == compose
  {
  }

  /** Two C strings one after the other make a C string. */
  function Concat(a: CStr, b: CStr): (r: CStr)
    ensures r == a + b
  {
    assert forall i | 0 <= i < |a + b| :: (a + b)[i] == if i < |a| then a[i] else b[i - |a|];
    a + b
  }

  /** The bytes pathcomp_yield puts in its buffer: the path when there are
      any, no path when there are none. */
  lemma JoinedBytes(root: Option<CStr>, compose: Option<CStr>, b: seq<Byte>)
    requires b == (if root.Some? && root.value != [] then root.value + "/" else [])
      + (if compose.Some? && compose.value != [] then compose.value else [])
    ensures b == [] <==> Joined(root, compose).None?
    ensures b != [] ==> Joined(root, compose).value == b
  {
    JoinedCases(root, compose);
  }

  /** The attributes pathcomp_yield joins into a path. */
  const RootName: CStr := "root"
  const ComposeName: CStr := "compose"

  /** pathcomp_yield on a snapshot: the path joined from the values of
      `root` and `compose`; no path when both are missing or empty. */
  function YieldOf(sts: seq<AttState>, lua: Lua): (r: Option<CStr>)
    requires AllWellFormed(sts)
    ensures r.Some? ==> r.value != []
  {
    Joined(EvalIn(sts, RootName, lua), EvalIn(sts, ComposeName, lua))
  }

  /** The path of the current combination: a non-empty root and a slash,
      then a non-empty compose; no path exactly when `root` and `compose`
      are both unknown, fail to evaluate or are empty. */
  lemma YieldOfCases(sts: seq<AttState>, lua: Lua)
    requires AllWellFormed(sts)
    ensures var r, root, compose := YieldOf(sts, lua), EvalIn(sts, RootName, lua), EvalIn(sts, ComposeName, lua);
      && (r.None? <==> (root.None? || root.value == []) && (compose.None? || compose.value == []))
      && (root.Some? && root.value != [] && compose.Some? && compose.value != [] ==>
            r == Some(root.value + "/" + compose.value))
      && (root.Some? && root.value != [] && (compose.None? || compose.value == []) ==>
            r == Some(root.value + "/"))
      && ((root.None? || root.value == []) && compose.Some? && compose.value != [] ==>
            r == compose)
  {
    JoinedCases(EvalIn(sts, RootName, lua), EvalIn(sts, ComposeName, lua));
  }

  /* ---- Cursors ---- */

  function Cursors(sts: seq<AttState>): (cs: seq<nat>)
    ensures |cs| == |sts| && forall i | 0 <= i < |sts| :: cs[i] == sts[i].current
  {
    seq(|sts|, i requires 0 <= i < |sts| => sts[i].current)
  }

  /** The number of alternatives of each attribute. */
  function Radices(sts: seq<AttState>): (rs: seq<nat>)
    ensures |rs| == |sts| && forall i | 0 <= i < |sts| :: rs[i] == |sts[i].values|
  {
    seq(|sts|, i requires 0 <= i < |sts| => |sts[i].values|)
  }

  lemma CursorsInRange(sts: seq<AttState>)
    requires AllWellFormed(sts)
    ensures InRange(Cursors(sts), Radices(sts)) && Positive(Radices(sts))
  {
  }

  /** The attributes with their cursors moved to cs; names and values stay. */
  function WithCursors(sts: seq<AttState>, cs: seq<nat>): (r: seq<AttState>)
    requires |cs| == |sts|
    ensures |r| == |sts|
    ensures forall i | 0 <= i < |sts| :: r[i] == sts[i].(current := cs[i])
  {
    seq(|sts|, i requires 0 <= i < |sts| => sts[i].(current := cs[i]))
  }

  /** Two snapshots of the same attributes, cursors aside. */
  predicate SameShape(a: seq<AttState>, b: seq<AttState>) {
    |a| == |b| && forall i | 0 <= i < |a| :: a[i].name == b[i].name && a[i].values == b[i].values
  }

  lemma WithCursorsShape(sts: seq<AttState>, cs: seq<nat>)
    requires |cs| == |sts| && InRange(cs, Radices(sts))
    ensures SameShape(WithCursors(sts, cs), sts)
    ensures Cursors(WithCursors(sts, cs)) == cs
    ensures Radices(WithCursors(sts, cs)) == Radices(sts)
    ensures AllWellFormed(WithCursors(sts, cs))
    ensures UniqueNames(sts) ==> UniqueNames(WithCursors(sts, cs))
  {
  }

  /** The enumeration state: the attributes, and the two flags. */
  datatype State = State(atts: seq<AttState>, done: bool, started: bool)

  /** The outcome of pathcomp_next: what it returns and the state after. */
  datatype Advanced = Advanced(moved: bool, state: State)

  /**
   * pathcomp_next: once done, nothing moves and the call reports false;
   * otherwise the attributes step as a counter whose fastest digit is the
   * first attribute: the call reports true exactly when a later combination
   * exists and then lands on it; at the last one every cursor goes back to
   * the first alternative and done is set.
   */
  function NextOf(c: State): (r: Advanced)
    requires AllWellFormed(c.atts)
    ensures SameShape(r.state.atts, c.atts) && AllWellFormed(r.state.atts)
    ensures Radices(r.state.atts) == Radices(c.atts)
    ensures UniqueNames(c.atts) ==> UniqueNames(r.state.atts)
    ensures r.state.started == c.started
    ensures c.done ==> r == Advanced(false, c)
    ensures !c.done ==> var cs, rs := Cursors(c.atts), Radices(c.atts);
      && (r.moved <==> Index(cs, rs) + 1 < Total(rs))
      && (r.moved ==> !r.state.done && Index(Cursors(r.state.atts), rs) == Index(cs, rs) + 1)
      && (!r.moved ==> r.state.done && Cursors(r.state.atts) == Zeros(|c.atts|))
  {
    if c.done then Advanced(false, c)
    else
      var cs, rs := Cursors(c.atts), Radices(c.atts);
      CursorsInRange(c.atts);
      StepAdvances(cs, rs);
      var s := Step(cs, rs);
      WithCursorsShape(c.atts, s.cursors);
      Advanced(s.moved, State(WithCursors(c.atts, s.cursors), !s.moved, c.started))
  }

  /** Attribute i is the first that can move: it moves, those before it
      are back on their first alternative and those after it stay. */
  predicate MovesFirstAt(before: seq<AttState>, after: seq<AttState>, i: nat) {
    && SameShape(before, after) && i < |before|
    && (forall j | 0 <= j < i :: before[j].current + 1 >= |before[j].values| && after[j].current == 0)
    && before[i].current + 1 < |before[i].values| && after[i].current == before[i].current + 1
    && (forall j | i < j < |after| :: after[j].current == before[j].current)
  }

  /** No attribute can move: all are back on their first alternative. */
  predicate WrapsAll(before: seq<AttState>, after: seq<AttState>) {
    && SameShape(before, after)
    && forall j | 0 <= j < |before| :: before[j].current + 1 >= |before[j].values| && after[j].current == 0
  }

  /** pathcomp_next one attribute at a time, when one of them moves. */
  lemma NextFirstMoves(c: State, i: nat, after: seq<AttState>)
    requires AllWellFormed(c.atts) && !c.done && MovesFirstAt(c.atts, after, i)
    ensures NextOf(c) == Advanced(true, c.(atts := after))
  {
    var cs, rs := Cursors(c.atts), Radices(c.atts);
    StepMovesFirst(cs, rs, i);
    var next := Zeros(i) + [cs[i] + 1] + cs[i + 1..];
    assert forall j | 0 <= j < |after| :: after[j] == WithCursors(c.atts, next)[j];
  }

  /** pathcomp_next one attribute at a time, when none moves: done is set. */
  lemma NextWrapsAll(c: State, after: seq<AttState>)
    requires AllWellFormed(c.atts) && !c.done && WrapsAll(c.atts, after)
    ensures NextOf(c) == Advanced(false, State(after, true, c.started))
  {
    var cs, rs := Cursors(c.atts), Radices(c.atts);
    StepWrapsAll(cs, rs);
    assert forall j | 0 <= j < |after| :: after[j] == WithCursors(c.atts, Zeros(|cs|))[j];
  }

  /** pathcomp_reset: every cursor on the first alternative, both flags
      cleared, nothing else changed. */
  function ResetOf(c: State): (r: State)
    requires AllWellFormed(c.atts)
    ensures SameShape(r.atts, c.atts) && AllWellFormed(r.atts)
    ensures Radices(r.atts) == Radices(c.atts)
    ensures UniqueNames(c.atts) ==> UniqueNames(r.atts)
    ensures !r.done && !r.started
    ensures Cursors(r.atts) == Zeros(|c.atts|) && Index(Cursors(r.atts), Radices(c.atts)) == 0
  {
    CursorsInRange(c.atts);
    WithCursorsShape(c.atts, Zeros(|c.atts|));
    IndexZeros(Radices(c.atts));
    State(WithCursors(c.atts, Zeros(|c.atts|)), false, false)
  }

  /** How many calls of pathcomp_next report true from this state on. */
  function MovesOf(c: State): nat
    requires AllWellFormed(c.atts)
    decreases if c.done then 0 else Total(Radices(c.atts)) - Index(Cursors(c.atts), Radices(c.atts))
  {
    var r := NextOf(c);
    if r.moved then 1 + MovesOf(r.state) else 0
  }

  /** From a combination that is not done, pathcomp_next reports true once
      for every later combination. */
  lemma {:induction false} MovesOfCount(c: State)
    requires AllWellFormed(c.atts) && !c.done
    ensures MovesOf(c) == Total(Radices(c.atts)) - 1 - Index(Cursors(c.atts), Radices(c.atts))
    decreases Total(Radices(c.atts)) - Index(Cursors(c.atts), Radices(c.atts))
  {
    CursorsInRange(c.atts);
    IndexBound(Cursors(c.atts), Radices(c.atts));
    var r := NextOf(c);
    if r.moved {
      MovesOfCount(r.state);
    }
  }

  /** After a reset, pathcomp_next reports true one time fewer than there
      are combinations, then done is set. */
  lemma ResetMoves(c: State)
    requires AllWellFormed(c.atts)
    ensures MovesOf(ResetOf(c)) == Total(Radices(c.atts)) - 1
  {
    MovesOfCount(ResetOf(c));
  }

  /* ---- Adding values ---- */

  /** The attribute that att_new makes. */
  function NewAtt(n: CStr, v: CStr): AttState {
    AttState(n, [Classify(v)], 0)
  }

  /** The values of the attribute with this name; none when it is absent. */
  function ValuesOf(sts: seq<AttState>, n: CStr): seq<Value> {
    match Lookup(sts, n)
    case None => []
    case Some(i) => sts[i].values
  }

  /** A new attribute at the end is found by its name only when no earlier
      one carries it. */
  lemma AppendedLookup(sts: seq<AttState>, a: AttState)
    ensures forall m: CStr ::
      Lookup(sts + [a], m) == if Lookup(sts, m).Some? then Lookup(sts, m)
        else if a.name == m then Some(|sts|) else None
  {
    var r := sts + [a];
    forall m: CStr
      ensures Lookup(r, m) == if Lookup(sts, m).Some? then Lookup(sts, m)
        else if a.name == m then Some(|sts|) else None
    {
      assert forall i | 0 <= i < |sts| :: r[i] == sts[i];
      if Lookup(sts, m).None? && a.name == m {
        assert r[|sts|].name == m;
      }
    }
  }

  /** Changing an attribute but not its name changes no lookup. */
  lemma UpdatedLookup(sts: seq<AttState>, i: nat, a: AttState)
    requires i < |sts| && a.name == sts[i].name && UniqueNames(sts)
    ensures forall m: CStr :: Lookup(sts[i := a], m) == Lookup(sts, m)
    ensures UniqueNames(sts[i := a])
  {
    var r := sts[i := a];
    assert forall j | 0 <= j < |sts| :: r[j].name == sts[j].name;
  }

  /**
   * pathcomp_add_or_replace: an unknown name gets a new single-valued
   * attribute at the end of the list; a known one has its values replaced
   * by the new one, or the new one appended as an alternative. Names stay
   * unique and every other attribute is left as it was.
   */
  function AddOrReplaceOf(sts: seq<AttState>, n: CStr, v: CStr, replace: bool): (r: seq<AttState>)
    requires Good(sts)
    ensures Good(r)
  {
    match Lookup(sts, n)
    case None =>
      AppendedLookup(sts, NewAtt(n, v));
      sts + [NewAtt(n, v)]
    case Some(i) =>
      var a := sts[i];
      var a' := if replace then a.(values := [Classify(v)], current := 0)
        else a.(values := a.values + [Classify(v)]);
      UpdatedLookup(sts, i, a');
      sts[i := a']
  }

  /** What pathcomp_add_or_replace does to the list, seen through lookups. */
  lemma AddOrReplaceLaws(sts: seq<AttState>, n: CStr, v: CStr, replace: bool)
    requires Good(sts)
    ensures var r := AddOrReplaceOf(sts, n, v, replace);
      && (Lookup(sts, n).None? ==> r == sts + [NewAtt(n, v)])
      && (Lookup(sts, n).Some? ==> |r| == |sts|)
      && ValuesOf(r, n) == (if replace then [Classify(v)] else ValuesOf(sts, n) + [Classify(v)])
      && forall m: CStr | m != n ::
        && Lookup(r, m) == Lookup(sts, m)
        && (Lookup(sts, m).Some? ==> r[Lookup(sts, m).value] == sts[Lookup(sts, m).value])
  {
    var r := AddOrReplaceOf(sts, n, v, replace);
    match Lookup(sts, n)
    case None =>
      AppendedLookup(sts, NewAtt(n, v));
    case Some(i) =>
      UpdatedLookup(sts, i, r[i]);
  }

  /** pathcomp_set: the values replaced, then a reset. */
  function SetOf(c: State, n: CStr, v: CStr): (r: State)
    requires Good(c.atts)
    ensures Good(r.atts) && !r.done && !r.started
    ensures Cursors(r.atts) == Zeros(|r.atts|)
    ensures Lookup(r.atts, n).Some?
  {
    AddOrReplaceLaws(c.atts, n, v, true);
    ResetOf(c.(atts := AddOrReplaceOf(c.atts, n, v, true)))
  }

  /** pathcomp_add: a value appended, then a reset. */
  function AddOf(c: State, n: CStr, v: CStr): (r: State)
    requires Good(c.atts)
    ensures Good(r.atts) && !r.done && !r.started
    ensures Cursors(r.atts) == Zeros(|r.atts|)
    ensures Lookup(r.atts, n).Some?
  {
    AddOrReplaceLaws(c.atts, n, v, false);
    ResetOf(c.(atts := AddOrReplaceOf(c.atts, n, v, false)))
  }

  /* ---- Building from the configuration ---- */

  ghost predicate EntriesAreC(es: seq<Entry>) {
    forall i | 0 <= i < |es| :: NoNul(es[i].key) && NoNul(es[i].value)
  }

  ghost predicate SectionsAreC(secs: seq<Section>) {
    forall i | 0 <= i < |secs| :: NoNul(secs[i].name) && EntriesAreC(secs[i].entries)
  }

  /** Each entry added in turn, as by pathcomp_add. */
  function WithEntries(c: State, es: seq<Entry>): (r: State)
    requires Good(c.atts) && EntriesAreC(es)
    ensures Good(r.atts)
    ensures !c.done && !c.started ==> !r.done && !r.started
    decreases |es|
  {
    if es == [] then c
    else
      assert EntriesAreC(es[1..]) by {
        assert forall i | 0 <= i < |es| - 1 :: es[1..][i] == es[i + 1];
      }
      WithEntries(AddOf(c, es[0].key, es[0].value), es[1..])
  }

  /** pathcomp_make_from_config: the entries of every section named like
      the composer, sections in order and entries in file order. */
  function WithSections(c: State, secs: seq<Section>, n: CStr): (r: State)
    requires Good(c.atts) && SectionsAreC(secs)
    ensures Good(r.atts)
    ensures !c.done && !c.started ==> !r.done && !r.started
    decreases |secs|
  {
    if secs == [] then c
    else
      assert SectionsAreC(secs[1..]) by {
        assert forall i | 0 <= i < |secs| - 1 :: secs[1..][i] == secs[i + 1];
      }
      var c' := if secs[0].name == n then WithEntries(c, secs[0].entries) else c;
      WithSections(c', secs[1..], n)
  }

  /** One section of pathcomp_make_from_config's loop: a section named
      otherwise is passed over, one named like the composer has its entries
      added. */
  lemma WithSectionsStep(c: State, secs: seq<Section>, s: nat, n: CStr)
    requires Good(c.atts) && SectionsAreC(secs) && s < |secs|
    ensures SectionsAreC(secs[s + 1..]) && EntriesAreC(secs[s].entries)
    ensures SectionsAreC(secs[s..])
    ensures secs[s].name != n ==> WithSections(c, secs[s..], n) == WithSections(c, secs[s + 1..], n)
    ensures secs[s].name == n ==>
      WithSections(c, secs[s..], n) == WithSections(WithEntries(c, secs[s].entries), secs[s + 1..], n)
  {
    assert forall i | 0 <= i < |secs| - s :: secs[s..][i] == secs[s + i];
    assert secs[s..][1..] == secs[s + 1..];
  }

  /** One entry of the inner loop: it is added as by pathcomp_add. */
  lemma WithEntriesStep(c: State, es: seq<Entry>, e: nat)
    requires Good(c.atts) && EntriesAreC(es) && e < |es|
    ensures EntriesAreC(es[e..]) && EntriesAreC(es[e + 1..])
    ensures NoNul(es[e].key) && NoNul(es[e].value)
    ensures WithEntries(c, es[e..]) == WithEntries(AddOf(c, es[e].key, es[e].value), es[e + 1..])
  {
    assert forall i | 0 <= i < |es| - e :: es[e..][i] == es[e + i];
    assert es[e..][1..] == es[e + 1..];
  }

  /** The values that the entries with key k give, classified, in order. */
  function EntryValues(es: seq<Entry>, k: CStr): seq<Value>
    requires EntriesAreC(es)
  {
    if es == [] then []
    else
      assert EntriesAreC(es[1..]) by {
        assert forall i | 0 <= i < |es| - 1 :: es[1..][i] == es[i + 1];
      }
      (if es[0].key == k then [Classify(es[0].value)] else []) + EntryValues(es[1..], k)
  }

  /** The values that the sections named n give to the key k, in order. */
  function SectionValues(secs: seq<Section>, n: CStr, k: CStr): seq<Value>
    requires SectionsAreC(secs)
  {
    if secs == [] then []
    else
      assert SectionsAreC(secs[1..]) by {
        assert forall i | 0 <= i < |secs| - 1 :: secs[1..][i] == secs[i + 1];
      }
      (if secs[0].name == n then EntryValues(secs[0].entries, k) else [])
        + SectionValues(secs[1..], n, k)
  }

  /** Adding a value for one key leaves the values of every other key. */
  lemma AddOfValues(c: State, n: CStr, v: CStr, k: CStr)
    requires Good(c.atts)
    ensures ValuesOf(AddOf(c, n, v).atts, k)
      == ValuesOf(c.atts, k) + (if n == k then [Classify(v)] else [])
  {
    var sts := AddOrReplaceOf(c.atts, n, v, false);
    AddOrReplaceLaws(c.atts, n, v, false);
    ValuesOfSameShape(AddOf(c, n, v).atts, sts, k);
    if n != k {
      match Lookup(c.atts, k)
      case None =>
      case Some(i) =>
        assert sts[i] == c.atts[i];
    }
  }

  /** Setting a key leaves it holding the one new value, and leaves the
      values of every other key. */
  lemma SetOfValues(c: State, n: CStr, v: CStr, k: CStr)
    requires Good(c.atts)
    ensures ValuesOf(SetOf(c, n, v).atts, k)
      == if n == k then [Classify(v)] else ValuesOf(c.atts, k)
  {
    var sts := AddOrReplaceOf(c.atts, n, v, true);
    AddOrReplaceLaws(c.atts, n, v, true);
    ValuesOfSameShape(SetOf(c, n, v).atts, sts, k);
    if n != k {
      match Lookup(c.atts, k)
      case None =>
      case Some(i) =>
        assert sts[i] == c.atts[i];
    }
  }

  /** Lookups see only names. */
  lemma LookupSameNames(a: seq<AttState>, b: seq<AttState>, m: CStr)
    requires |a| == |b| && forall i | 0 <= i < |a| :: a[i].name == b[i].name
    ensures Lookup(a, m) == Lookup(b, m)
  {
    assert forall i | 0 <= i < |a| :: (a[i].name == m) == (b[i].name == m);
  }

  /** Snapshots that differ only in their cursors hold the same values under
      every name. */
  lemma ValuesOfSameShape(a: seq<AttState>, b: seq<AttState>, k: CStr)
    requires SameShape(a, b)
    ensures ValuesOf(a, k) == ValuesOf(b, k)
  {
    LookupSameNames(a, b, k);
  }

  lemma {:induction false} WithEntriesValues(c: State, es: seq<Entry>, k: CStr)
    requires Good(c.atts) && EntriesAreC(es)
    ensures ValuesOf(WithEntries(c, es).atts, k) == ValuesOf(c.atts, k) + EntryValues(es, k)
    decreases |es|
  {
    if es == [] {
      assert ValuesOf(c.atts, k) + [] == ValuesOf(c.atts, k);
    } else {
      var c' := AddOf(c, es[0].key, es[0].value);
      assert EntriesAreC(es[1..]) by {
        assert forall i | 0 <= i < |es| - 1 :: es[1..][i] == es[i + 1];
      }
      AddOfValues(c, es[0].key, es[0].value, k);
      WithEntriesValues(c', es[1..], k);
      var here: seq<Value> := if es[0].key == k then [Classify(es[0].value)] else [];
      Assoc(ValuesOf(c.atts, k), here, EntryValues(es[1..], k));
    }
  }

  lemma {:induction false} WithSectionsValues(c: State, secs: seq<Section>, n: CStr, k: CStr)
    requires Good(c.atts) && SectionsAreC(secs)
    ensures ValuesOf(WithSections(c, secs, n).atts, k) == ValuesOf(c.atts, k) + SectionValues(secs, n, k)
    decreases |secs|
  {
    if secs == [] {
      assert ValuesOf(c.atts, k) + [] == ValuesOf(c.atts, k);
    } else {
      assert SectionsAreC(secs[1..]) by {
        assert forall i | 0 <= i < |secs| - 1 :: secs[1..][i] == secs[i + 1];
      }
      var c' := if secs[0].name == n then WithEntries(c, secs[0].entries) else c;
      var here := if secs[0].name == n then EntryValues(secs[0].entries, k) else [];
      if secs[0].name == n {
        WithEntriesValues(c, secs[0].entries, k);
      } else {
        assert ValuesOf(c.atts, k) + here == ValuesOf(c.atts, k);
      }
      WithSectionsValues(c', secs[1..], n, k);
      Assoc(ValuesOf(c.atts, k), here, SectionValues(secs[1..], n, k));
    }
  }

  lemma Assoc<T>(a: seq<T>, b: seq<T>, c: seq<T>)
    ensures a + b + c == a + (b + c)
  {
  }

  /**
   * A composer built from the configuration has, for every key, exactly
   * the values of that key in the sections carrying the composer's name,
   * the earliest first; repeated sections add alternatives.
   */
  lemma FromConfigValues(secs: seq<Section>, n: CStr, k: CStr)
    requires SectionsAreC(secs)
    ensures ValuesOf(WithSections(State([], false, false), secs, n).atts, k) == SectionValues(secs, n, k)
  {
    WithSectionsValues(State([], false, false), secs, n, k);
  }

  /* ---- Finding an existing path ---- */

  /** Decreases with every round of pathcomp_find's loop. */
  function FindMeasure(c: State): nat
    requires AllWellFormed(c.atts)
  {
    if c.done then 0
    else
      CursorsInRange(c.atts);
      IndexBound(Cursors(c.atts), Radices(c.atts));
      2 * (Total(Radices(c.atts)) - Index(Cursors(c.atts), Radices(c.atts))) + (if c.started then 0 else 1)
  }

  /** The head of a round of pathcomp_find: the first round since a reset
      tests the combination in place, later ones advance first. */
  function Probe(c: State): (r: State)
    requires AllWellFormed(c.atts)
    ensures SameShape(r.atts, c.atts) && AllWellFormed(r.atts) && r.started
    ensures Radices(r.atts) == Radices(c.atts)
    ensures UniqueNames(c.atts) ==> UniqueNames(r.atts)
    ensures !r.done ==> FindMeasure(r) < FindMeasure(c)
  {
    (if c.started then NextOf(c).state else c).(started := true)
  }

  /** What pathcomp_find returns and the state it leaves. */
  datatype Found = Found(path: Option<CStr>, state: State)

  /** A combination whose path exists (present stands for stat(2)). */
  predicate Hit(sts: seq<AttState>, lua: Lua, present: CStr -> bool)
    requires AllWellFormed(sts)
  {
    var p := YieldOf(sts, lua);
    p.Some? && present(p.value)
  }

  /**
   * pathcomp_find: round after round, the first combination whose path
   * exists is returned and the composer stays on it; when the combinations
   * run out, None is returned with done set.
   */
  function FindOf(c: State, lua: Lua, present: CStr -> bool): (r: Found)
    requires AllWellFormed(c.atts)
    ensures SameShape(r.state.atts, c.atts) && AllWellFormed(r.state.atts) && r.state.started
    ensures UniqueNames(c.atts) ==> UniqueNames(r.state.atts)
    ensures r.path.None? <==> r.state.done
    ensures r.path.Some? ==> r.path == YieldOf(r.state.atts, lua) && present(r.path.value)
    decreases FindMeasure(c)
  {
    var c' := Probe(c);
    if c'.done then Found(None, c')
    else if Hit(c'.atts, lua, present) then Found(YieldOf(c'.atts, lua), c')
    else FindOf(c', lua, present)
  }

  /** One round of pathcomp_find's loop. */
  lemma FindRound(c: State, lua: Lua, present: CStr -> bool)
    requires AllWellFormed(c.atts)
    ensures var c' := Probe(c);
      && (c'.done ==> FindOf(c, lua, present) == Found(None, c'))
      && (!c'.done && Hit(c'.atts, lua, present) ==> FindOf(c, lua, present) == Found(YieldOf(c'.atts, lua), c'))
      && (!c'.done && !Hit(c'.atts, lua, present) ==>
          FindOf(c, lua, present) == FindOf(c', lua, present) && FindMeasure(c') < FindMeasure(c))
  {
  }

  /** The combination at position k of the enumeration. */
  function At(sts: seq<AttState>, k: nat): (r: seq<AttState>)
    requires AllWellFormed(sts) && k < Total(Radices(sts))
    ensures AllWellFormed(r) && SameShape(r, sts)
  {
    CursorsInRange(sts);
    IndexDigits(k, Radices(sts));
    WithCursorsShape(sts, Digits(k, Radices(sts)));
    WithCursors(sts, Digits(k, Radices(sts)))
  }

  /** Where pathcomp_find starts looking: in place on the first call since
      a reset, at the next combination otherwise. */
  function Start(c: State): nat
    requires AllWellFormed(c.atts)
  {
    CursorsInRange(c.atts);
    Index(Cursors(c.atts), Radices(c.atts)) + (if c.started then 1 else 0)
  }

  /** A snapshot is the combination at its own position. */
  lemma AtIndex(sts: seq<AttState>, sts': seq<AttState>)
    requires AllWellFormed(sts) && AllWellFormed(sts') && SameShape(sts', sts)
    ensures Index(Cursors(sts'), Radices(sts)) < Total(Radices(sts))
      && At(sts, Index(Cursors(sts'), Radices(sts))) == sts'
  {
    var rs := Radices(sts);
    assert Radices(sts') == rs;
    CursorsInRange(sts');
    IndexBound(Cursors(sts'), rs);
    DigitsIndex(Cursors(sts'), rs);
    var r := At(sts, Index(Cursors(sts'), rs));
    assert forall i | 0 <= i < |sts| :: r[i] == sts'[i];
  }

  /** The first position from k on, below t, that satisfies p; t when
      there is none. */
  function FirstFrom(t: nat, k: nat, p: nat -> bool): (f: nat)
    ensures f <= t && (k <= t ==> k <= f)
    decreases t - k
  {
    if k >= t then t
    else if p(k) then k
    else FirstFrom(t, k + 1, p)
  }

  /** FirstFrom finds a position that satisfies p, and none before it from k
      on does. */
  lemma {:induction false} FirstFromIsFirst(t: nat, k: nat, p: nat -> bool)
    ensures var f := FirstFrom(t, k, p);
      && (f < t ==> p(f))
      && (forall j: nat | k <= j < f :: !p(j))
    decreases t - k
  {
    if k < t && !p(k) {
      FirstFromIsFirst(t, k + 1, p);
    }
  }

  /** Only the values of p from k to t matter. */
  lemma {:induction false} FirstFromSame(t: nat, k: nat, p: nat -> bool, q: nat -> bool)
    requires forall j: nat | k <= j < t :: p(j) == q(j)
    ensures FirstFrom(t, k, p) == FirstFrom(t, k, q)
    decreases t - k
  {
    if k < t {
      FirstFromSame(t, k + 1, p, q);
    }
  }

  /** Whether the combination at a position has an existing path. */
  function HitAt(sts: seq<AttState>, lua: Lua, present: CStr -> bool): nat -> bool
    requires AllWellFormed(sts)
  {
    (j: nat) => j < Total(Radices(sts)) && Hit(At(sts, j), lua, present)
  }

  /** The first position from k on whose combination has an existing path;
      the number of combinations when there is none. */
  function FirstHit(sts: seq<AttState>, k: nat, lua: Lua, present: CStr -> bool): (f: nat)
    requires AllWellFormed(sts)
    ensures f <= Total(Radices(sts)) && (k <= Total(Radices(sts)) ==> k <= f)
  {
    FirstFrom(Total(Radices(sts)), k, HitAt(sts, lua, present))
  }

  /** FirstHit lands on a combination whose path exists, and no combination
      from k up to it has one. */
  lemma FirstHitIsFirst(sts: seq<AttState>, k: nat, lua: Lua, present: CStr -> bool)
    requires AllWellFormed(sts)
    ensures var f := FirstHit(sts, k, lua, present);
      && (f < Total(Radices(sts)) ==> Hit(At(sts, f), lua, present))
      && (forall j: nat | k <= j < f :: !Hit(At(sts, j), lua, present))
  {
    var p := HitAt(sts, lua, present);
    FirstFromIsFirst(Total(Radices(sts)), k, p);
    var f := FirstHit(sts, k, lua, present);
    forall j: nat | k <= j < f ensures !Hit(At(sts, j), lua, present) {
      assert !p(j);
    }
  }

  lemma FirstHitSame(a: seq<AttState>, b: seq<AttState>, k: nat, lua: Lua, present: CStr -> bool)
    requires AllWellFormed(a) && AllWellFormed(b) && SameShape(b, a)
    ensures FirstHit(a, k, lua, present) == FirstHit(b, k, lua, present)
  {
    AtSame(a, b);
    FirstFromSame(Total(Radices(a)), k, HitAt(a, lua, present), HitAt(b, lua, present));
  }

  /**
   * pathcomp_find tests the combinations in enumeration order from where it
   * starts: it stops on the first of them whose path exists, and returns
   * None exactly when there is none.
   */
  lemma {:induction false} FindFirst(c: State, lua: Lua, present: CStr -> bool)
    requires AllWellFormed(c.atts) && !c.done
    ensures var r := FindOf(c, lua, present); var rs := Radices(c.atts);
      var f := FirstHit(c.atts, Start(c), lua, present);
      && (r.path.None? <==> f == Total(rs))
      && (r.path.Some? ==> Index(Cursors(r.state.atts), rs) == f)
    decreases FindMeasure(c)
  {
    var c' := Probe(c);
    if c'.done || Hit(c'.atts, lua, present) {
      FindStops(c, lua, present);
    } else {
      FindFirst(c', lua, present);
      assert FindLands(c', lua, present);
      FindGoesOn(c, lua, present);
      assert FindLands(c, lua, present);
    }
  }

  /** The round where pathcomp_find stops is the first hit from the start. */
  lemma FindStops(c: State, lua: Lua, present: CStr -> bool)
    requires AllWellFormed(c.atts) && !c.done
    requires Probe(c).done || Hit(Probe(c).atts, lua, present)
    ensures var r := FindOf(c, lua, present); var rs := Radices(c.atts);
      var f := FirstHit(c.atts, Start(c), lua, present);
      && (r.path.None? <==> f == Total(rs))
      && (r.path.Some? ==> Index(Cursors(r.state.atts), rs) == f)
  {
    var c' := Probe(c);
    ProbeStart(c);
    FindRound(c, lua, present);
    if !c'.done {
      AtIndex(c.atts, c'.atts);
      CursorsInRange(c'.atts);
      assert HitAt(c.atts, lua, present)(Start(c));
    }
  }

  /** What FindFirst states about a state: the search ends on the first hit
      from the start, or fails exactly when there is none. */
  predicate FindLands(c: State, lua: Lua, present: CStr -> bool)
    requires AllWellFormed(c.atts)
  {
    var r := FindOf(c, lua, present); var rs := Radices(c.atts);
    var f := FirstHit(c.atts, Start(c), lua, present);
    && (r.path.None? <==> f == Total(rs))
    && (r.path.Some? ==> Index(Cursors(r.state.atts), rs) == f)
  }

  /** A round that misses leaves the search where it was. */
  lemma FindGoesOn(c: State, lua: Lua, present: CStr -> bool)
    requires AllWellFormed(c.atts) && !c.done
    requires !Probe(c).done && !Hit(Probe(c).atts, lua, present)
    requires FindLands(Probe(c), lua, present)
    ensures FindLands(c, lua, present)
  {
    FindRound(c, lua, present);
    MissKeepsFirstHit(c, lua, present);
  }

  /** A round that misses leaves the first hit where it was. */
  lemma MissKeepsFirstHit(c: State, lua: Lua, present: CStr -> bool)
    requires AllWellFormed(c.atts) && !c.done
    requires !Probe(c).done && !Hit(Probe(c).atts, lua, present)
    ensures Radices(Probe(c).atts) == Radices(c.atts)
    ensures FirstHit(c.atts, Start(c), lua, present) == FirstHit(Probe(c).atts, Start(Probe(c)), lua, present)
  {
    var c' := Probe(c);
    ProbeStart(c);
    AtIndex(c.atts, c'.atts);
    FirstHitSkips(c.atts, Start(c), lua, present);
    FirstHitSame(c.atts, c'.atts, Start(c'), lua, present);
  }

  /** A position without a hit is passed over. */
  lemma FirstHitSkips(sts: seq<AttState>, k: nat, lua: Lua, present: CStr -> bool)
    requires AllWellFormed(sts) && k < Total(Radices(sts)) && !Hit(At(sts, k), lua, present)
    ensures FirstHit(sts, k, lua, present) == FirstHit(sts, k + 1, lua, present)
  {
    assert !HitAt(sts, lua, present)(k);
  }

  /** Where the first round of pathcomp_find lands: at the start position,
      or, when the combinations have run out, the start is past the last. */
  lemma ProbeStart(c: State)
    requires AllWellFormed(c.atts) && !c.done
    ensures var c' := Probe(c); var rs := Radices(c.atts);
      && Start(c) <= Total(rs)
      && (c'.done ==> Start(c) == Total(rs))
      && (!c'.done ==> Index(Cursors(c'.atts), rs) == Start(c) < Total(rs) && Start(c') == Start(c) + 1)
  {
    var rs := Radices(c.atts);
    CursorsInRange(c.atts);
    IndexBound(Cursors(c.atts), rs);
    var c' := Probe(c);
    CursorsInRange(c'.atts);
    IndexBound(Cursors(c'.atts), rs);
  }

  /** The combinations of two snapshots of the same attributes are the same. */
  lemma AtSame(a: seq<AttState>, b: seq<AttState>)
    requires AllWellFormed(a) && AllWellFormed(b) && SameShape(b, a)
    ensures Radices(a) == Radices(b)
    ensures forall k: nat | k < Total(Radices(a)) :: At(a, k) == At(b, k)
  {
    assert Radices(a) == Radices(b);
    forall k: nat | k < Total(Radices(a)) ensures At(a, k) == At(b, k) {
      var ra, rb := At(a, k), At(b, k);
      assert forall i | 0 <= i < |a| :: ra[i] == rb[i];
    }
  }

  /* ---- Creating the directories ---- */

  /** What mkdir(2) does with one prefix. */
  datatype MkdirOutcome = Made | AlreadyThere | Refused

  /** Position j ends the first component after some slashes: a slash that
      follows a byte other than a slash. */
  predicate IsCut(path: seq<Byte>, j: int) {
    0 < j < |path| && path[j] == '/' && path[j - 1] != '/'
  }

  /** The directories pathcomp_mkdir creates before position n, in order:
      the path up to each cut. */
  function PrefixesBelow(path: seq<Byte>, n: nat): seq<seq<Byte>>
    requires n <= |path|
  {
    if n == 0 then []
    else PrefixesBelow(path, n - 1) + (if IsCut(path, n - 1) then [path[..n - 1]] else [])
  }

  /** One more position: a prefix is added exactly when the position is a
      cut. */
  lemma PrefixesBelowStep(path: seq<Byte>, n: nat)
    requires n < |path|
    ensures IsCut(path, n) ==> PrefixesBelow(path, n + 1) == PrefixesBelow(path, n) + [path[..n]]
    ensures !IsCut(path, n) ==> PrefixesBelow(path, n + 1) == PrefixesBelow(path, n)
  {
  }

  function DirPrefixes(path: seq<Byte>): seq<seq<Byte>> {
    PrefixesBelow(path, |path|)
  }

  /**
   * The directories are exactly the path up to each cut, shortest first:
   * each is a non-empty prefix of the path not ending in a slash and
   * followed by one, so the last component is never among them.
   */
  lemma PrefixesBelowCuts(path: seq<Byte>, n: nat)
    requires n <= |path|
    ensures var r := PrefixesBelow(path, n);
      && (forall i | 0 <= i < |r| :: |r[i]| < n && IsCut(path, |r[i]|) && r[i] == path[..|r[i]|])
      && (forall i, j | 0 <= i < j < |r| :: |r[i]| < |r[j]|)
      && (forall j | 0 <= j < n && IsCut(path, j) :: path[..j] in r)
  {
    PrefixesAreCuts(path, n);
    PrefixesAscend(path, n);
    CutsArePrefixes(path, n);
  }

  lemma {:induction false} PrefixesAreCuts(path: seq<Byte>, n: nat)
    requires n <= |path|
    ensures forall i | 0 <= i < |PrefixesBelow(path, n)| ::
      var d := PrefixesBelow(path, n)[i]; |d| < n && IsCut(path, |d|) && d == path[..|d|]
  {
    if n > 0 {
      PrefixesAreCuts(path, n - 1);
      PrefixesBelowStep(path, n - 1);
      var prev, r := PrefixesBelow(path, n - 1), PrefixesBelow(path, n);
      if IsCut(path, n - 1) {
        assert r == prev + [path[..n - 1]];
        forall i | 0 <= i < |r| ensures |r[i]| < n && IsCut(path, |r[i]|) && r[i] == path[..|r[i]|] {
          if i < |prev| {
            assert r[i] == prev[i];
          }
        }
      }
    }
  }

  lemma {:induction false} PrefixesAscend(path: seq<Byte>, n: nat)
    requires n <= |path|
    ensures forall i, j | 0 <= i < j < |PrefixesBelow(path, n)| ::
      |PrefixesBelow(path, n)[i]| < |PrefixesBelow(path, n)[j]|
  {
    if n > 0 {
      PrefixesAscend(path, n - 1);
      PrefixesAreCuts(path, n - 1);
      PrefixesBelowStep(path, n - 1);
    }
  }

  lemma {:induction false} CutsArePrefixes(path: seq<Byte>, n: nat)
    requires n <= |path|
    ensures forall j | 0 <= j < n && IsCut(path, j) :: path[..j] in PrefixesBelow(path, n)
  {
    if n > 0 {
      CutsArePrefixes(path, n - 1);
      PrefixesBelowStep(path, n - 1);
    }
  }

  /** The result of pathcomp_mkdir: every mkdir succeeded or found the
      directory already there. */
  predicate AllMade(made: seq<seq<Byte>>, mkdir: seq<Byte> -> MkdirOutcome) {
    forall i | 0 <= i < |made| :: mkdir(made[i]) != Refused
  }

  lemma AllMadeAppend(made: seq<seq<Byte>>, d: seq<Byte>, mkdir: seq<Byte> -> MkdirOutcome)
    ensures AllMade(made + [d], mkdir) <==> AllMade(made, mkdir) && mkdir(d) != Refused
  {
    assert forall i | 0 <= i < |made| :: (made + [d])[i] == made[i];
    assert (made + [d])[|made|] == d;
  }
}
