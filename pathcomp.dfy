/**
 * The path composer: a named set of attributes whose alternatives are
 * enumerated like the digits of a counter. Every combination yields a path
 * built from the attributes `root` and `compose`; the composer can walk the
 * combinations, find the first whose path exists, and create the
 * directories leading to a path.
 *
 * The methods work on the composer in place, as the C functions do; each
 * is proved against the function on snapshots in ComposerStates that says
 * what the call computes.
 */
module Composers {
  import opened Wrappers
  import opened Bytes
  import opened Values
  import opened Atts
  import opened Odometer
  import opened Configs
  import opened Buffers
  import opened ComposerStates

  /** No attribute object is held twice. */
  predicate Distinct(atts: seq<Attribute>) {
    forall i, j | 0 <= i < j < |atts| :: atts[i] != atts[j]
  }

  /**
   * The buffer work of pathcomp_yield: a non-empty root and a slash, then a
   * non-empty compose; no path when the buffer stays empty.
   */
  method AssemblePath(root: Option<CStr>, compose: Option<CStr>) returns (path: Option<CStr>)
    ensures path == Joined(root, compose)
  {
    var buf := new Buffer.Init(0);
    ghost var head: seq<Byte> := [];
    if root.Some? && |root.value| > 0 {
      buf.AddStr(root.value);
      buf.AddCh('/' as int);
      head := root.value + "/";
    }
    assert buf.Contents() == head;
    if compose.Some? && |compose.value| > 0 {
      buf.AddStr(compose.value);
    }
    JoinedBytes(root, compose, buf.Contents());
    if buf.len > 0 {
      var s := buf.Detach();
      return Some(s);
    }
    buf.Release();
    return None;
  }

  /**
   * The loop of pathcomp_mkdir: past the slashes, past the component, and
   * at the slash that follows it the path up to there goes to mkdir(2),
   * shortest first. The prefixes handed over are returned with the
   * verdict.
   */
  method MakeDirs(path: CStr, mkdir: seq<Byte> -> MkdirOutcome) returns (success: bool, tried: seq<seq<Byte>>)
    ensures tried == DirPrefixes(path)
    ensures success == AllMade(tried, mkdir)
  {
    success := true;
    tried := [];
    var p := 0;
    while p < |path|
      invariant 0 <= p <= |path|
      invariant p < |path| ==> p == 0 || path[p - 1] == '/'
      invariant tried == PrefixesBelow(path, p)
      invariant success == AllMade(tried, mkdir)
      decreases |path| - p
    {
      p := SkipSlashes(path, p);
      p := SkipComponent(path, p);
      if p < |path| {
        success, tried := MakeDirAt(path, p, mkdir, success, tried);
        p := p + 1;
      }
    }
  }

  /** At a cut: the path up to it goes to mkdir(2), and a refusal makes the
      verdict false. */
  method MakeDirAt(path: CStr, p: nat, mkdir: seq<Byte> -> MkdirOutcome, success: bool, tried: seq<seq<Byte>>)
    returns (success': bool, tried': seq<seq<Byte>>)
    requires IsCut(path, p) && tried == PrefixesBelow(path, p) && success == AllMade(tried, mkdir)
    ensures tried' == PrefixesBelow(path, p + 1) && success' == AllMade(tried', mkdir)
  {
    PrefixesBelowStep(path, p);
    var outcome := mkdir(path[..p]);
    success' := success && outcome != Refused;
    AllMadeAppend(tried, path[..p], mkdir);
    tried' := tried + [path[..p]];
  }

  /** The first scan of pathcomp_mkdir's loop: past the slashes at p. None
      of them ends a directory name. */
  method SkipSlashes(path: seq<Byte>, p: nat) returns (q: nat)
    requires p <= |path| && (p == 0 || path[p - 1] == '/')
    ensures p <= q <= |path| && (q == |path| || path[q] != '/')
    ensures q == 0 || path[q - 1] == '/'
    ensures PrefixesBelow(path, q) == PrefixesBelow(path, p)
  {
    q := p;
    while q < |path| && path[q] == '/'
      invariant p <= q <= |path| && (q == 0 || path[q - 1] == '/')
      invariant PrefixesBelow(path, q) == PrefixesBelow(path, p)
    {
      PrefixesBelowStep(path, q);
      q := q + 1;
    }
  }

  /** The second scan: past one component, up to the slash after it, which
      is where a directory name ends. */
  method SkipComponent(path: seq<Byte>, p: nat) returns (q: nat)
    requires p <= |path| && (p == |path| || path[p] != '/')
    ensures p <= q <= |path|
    ensures q < |path| ==> IsCut(path, q)
    ensures PrefixesBelow(path, q) == PrefixesBelow(path, p)
  {
    q := p;
    while q < |path| && path[q] != '/'
      invariant p <= q <= |path| && (q == p || path[q - 1] != '/')
      invariant PrefixesBelow(path, q) == PrefixesBelow(path, p)
    {
      PrefixesBelowStep(path, q);
      q := q + 1;
    }
  }

  /** One attribute's turn in pathcomp_next: att_next, and att_reset once
      it has wrapped. */
  method Turn(a: Attribute) returns (moved: bool)
    requires a.Valid()
    modifies a`current
    ensures a.Valid() && (moved <==> old(a.current) + 1 < |a.values|)
    ensures a.current == if moved then old(a.current) + 1 else 0
  {
    moved := a.Next();
    if !moved {
      a.Reset();
    }
  }

  class Composer {
    var name: CStr
    var attributes: seq<Attribute>
    var done: bool
    var started: bool

    /** The attributes as values, in list order. */
    function States(): (r: seq<AttState>)
      reads this`attributes, attributes
      ensures |r| == |attributes|
      ensures forall i | 0 <= i < |attributes| :: r[i] == attributes[i].State()
    {
      var atts := attributes;
      seq(|atts|, i reads atts requires 0 <= i < |atts| => atts[i].State())
    }

    /** The enumeration state: the attributes with their cursors and both
        flags. */
    function Snap(): State
      reads this, attributes
    {
      State(States(), done, started)
    }

    /** Each attribute is held once, each has a value under its cursor, and
        no two share a name. */
    ghost predicate Valid()
      reads this`attributes, attributes
    {
      && Distinct(attributes)
      && Good(States())
    }

    /**
     * pathcomp_new: a composer with the given name, its attributes taken
     * from the sections of the configuration named like it, and its
     * enumeration not yet started.
     */
    constructor New(name: CStr, config: Config?)
      requires config != null ==> config.Valid()
      ensures Valid() && this.name == name
      ensures config == null ==> Snap() == State([], false, false)
      ensures config != null ==> Snap() == WithSections(State([], false, false), config.sections, name)
    {
      this.name := name;
      attributes := [];
      done := false;
      started := false;
      new;
      MakeFromConfig(config);
      done := false;
      started := false;
    }

    /** list_find_first with att_name_equal_to on the composer's list. */
    method FindAttribute(n: CStr) returns (r: Option<nat>)
      ensures r == Lookup(States(), n)
    {
      var i := 0;
      while i < |attributes|
        invariant 0 <= i <= |attributes|
        invariant forall j | 0 <= j < i :: States()[j].name != n
      {
        var same := attributes[i].NameEqualTo(n);
        if same {
          return Some(i);
        }
        i := i + 1;
      }
      return None;
    }

    /** pathcomp_eval_nocopy: the value of the named attribute; None when
        there is no attribute by that name. */
    method EvalNoCopy(n: CStr, lua: Lua) returns (r: Option<CStr>)
      requires Valid()
      ensures r == EvalIn(States(), n, lua)
      ensures Lookup(States(), n).None? ==> r.None?
    {
      var i := FindAttribute(n);
      if i.None? {
        return None;
      }
      r := EvalAtt(attributes[i.value].State(), States(), lua);
    }

    /** pathcomp_yield: the path of the current combination. */
    method Yield(lua: Lua) returns (path: Option<CStr>)
      requires Valid()
      ensures Valid() && path == YieldOf(States(), lua)
    {
      ghost var sts := States();
      var root := EvalNoCopy(RootName, lua);
      assert States() == sts;
      var compose := EvalNoCopy(ComposeName, lua);
      assert States() == sts;
      path := AssemblePath(root, compose);
      assert States() == sts && Valid();
    }

    /** att_new and list_push: a new single-valued attribute at the end of
        the list, for a name the list does not hold yet. */
    method Push(n: CStr, v: CStr)
      requires Valid() && Lookup(States(), n).None?
      modifies this`attributes
      ensures Valid() && States() == old(States()) + [NewAtt(n, v)]
      ensures |attributes| == |old(attributes)| + 1 && attributes[..|old(attributes)|] == old(attributes)
      ensures fresh(attributes[|old(attributes)|])
    {
      ghost var sts := States();
      var a := new Attribute.New(n, v);
      attributes := attributes + [a];
      assert States() == sts + [NewAtt(n, v)] by {
        assert forall i | 0 <= i < |sts| :: States()[i] == sts[i];
      }
      assert forall i | 0 <= i < |sts| :: States()[i].name != n;
    }

    /** att_replace_value or att_add_value on the attribute at position i. */
    method Update(i: nat, v: CStr, replace: bool)
      requires Valid() && i < |attributes|
      modifies attributes[i]
      ensures Valid()
      ensures var a := old(States())[i];
        States() == old(States())[i := if replace then a.(values := [Classify(v)], current := 0)
          else a.(values := a.values + [Classify(v)])]
    {
      ghost var sts := States();
      if replace {
        attributes[i].ReplaceValue(v);
      } else {
        attributes[i].AddValue(v);
      }
      assert States() == sts[i := attributes[i].State()] by {
        assert forall j | 0 <= j < |sts| && j != i :: States()[j] == sts[j];
      }
      UpdatedLookup(sts, i, attributes[i].State());
    }

    /**
     * pathcomp_add_or_replace: a new attribute at the end of the list when
     * none has the name; otherwise that attribute's values are replaced by
     * the new one or extended with it.
     */
    method AddOrReplace(n: CStr, v: CStr, replace: bool)
      requires Valid()
      modifies this, attributes
      ensures Valid() && name == old(name) && done == old(done) && started == old(started)
      ensures States() == AddOrReplaceOf(old(States()), n, v, replace)
      ensures forall i | 0 <= i < |attributes| :: attributes[i] in old(attributes) || fresh(attributes[i])
    {
      ghost var sts := States();
      var found := FindAttribute(n);
      if found.None? {
        Push(n, v);
      } else {
        Update(found.value, v, replace);
      }
      assert States() == AddOrReplaceOf(sts, n, v, replace);
    }

    /** pathcomp_set: the attribute's values replaced, then a reset. */
    method Set(n: CStr, v: CStr)
      requires Valid()
      modifies this, attributes
      ensures Valid() && name == old(name)
      ensures Snap() == SetOf(old(Snap()), n, v)
      ensures forall i | 0 <= i < |attributes| :: attributes[i] in old(attributes) || fresh(attributes[i])
    {
      AddOrReplace(n, v, true);
      Reset();
    }

    /** pathcomp_add: a value appended to the attribute, then a reset. */
    method Add(n: CStr, v: CStr)
      requires Valid()
      modifies this, attributes
      ensures Valid() && name == old(name)
      ensures Snap() == AddOf(old(Snap()), n, v)
      ensures forall i | 0 <= i < |attributes| :: attributes[i] in old(attributes) || fresh(attributes[i])
    {
      AddOrReplace(n, v, false);
      Reset();
    }

    /** att_reset on the attribute at position k, seen on the states. */
    method ResetAt(k: nat)
      requires k < |attributes| && Distinct(attributes) && attributes[k].Valid()
      modifies attributes[k]
      ensures States() == old(States())[k := old(States())[k].(current := 0)]
    {
      attributes[k].Reset();
    }

    /** pathcomp_reset: back to the first combination, not started. */
    method Reset()
      requires Valid()
      modifies this, attributes
      ensures Valid() && attributes == old(attributes) && name == old(name)
      ensures Snap() == ResetOf(old(Snap()))
    {
      ghost var sts := States();
      ghost var target := ResetOf(Snap());
      var i := 0;
      while i < |attributes|
        invariant 0 <= i <= |attributes| && attributes == old(attributes) && name == old(name)
        invariant Distinct(attributes) && |States()| == |sts|
        invariant forall j | 0 <= j < |sts| :: States()[j] == if j < i then sts[j].(current := 0) else sts[j]
      {
        ResetAt(i);
        i := i + 1;
      }
      done := false;
      started := false;
      assert States() == target.atts by {
        assert target.atts == WithCursors(sts, Zeros(|sts|));
        assert forall j | 0 <= j < |sts| :: States()[j] == target.atts[j];
      }
      assert Good(target.atts);
    }

    /** pathcomp_done. */
    method Done() returns (r: bool)
      ensures r == done
    {
      return done;
    }

    /** Turn on the attribute at position k, seen on the states. */
    method TurnAt(k: nat) returns (moved: bool)
      requires k < |attributes| && Distinct(attributes) && attributes[k].Valid()
      modifies attributes[k]
      ensures var a := old(States())[k];
        && (moved <==> a.current + 1 < |a.values|)
        && States() == old(States())[k := a.(current := if moved then a.current + 1 else 0)]
    {
      moved := Turn(attributes[k]);
    }

    /**
     * The loop of pathcomp_next: each attribute in turn tries to move on;
     * the first that can ends the loop, every one before it has wrapped to
     * its first alternative and been reset.
     */
    method Carry() returns (moved: bool, ghost i: nat)
      requires Valid()
      modifies attributes
      ensures attributes == old(attributes)
      ensures moved ==> MovesFirstAt(old(States()), States(), i)
      ensures !moved ==> WrapsAll(old(States()), States())
    {
      ghost var sts := States();
      var k := 0;
      while k < |attributes|
        invariant 0 <= k <= |attributes| && attributes == old(attributes) && Distinct(attributes)
        invariant SameShape(sts, States())
        invariant forall j | 0 <= j < k :: sts[j].current + 1 >= |sts[j].values| && States()[j].current == 0
        invariant forall j | k <= j < |attributes| :: States()[j].current == sts[j].current
      {
        var m := TurnAt(k);
        if m {
          return true, k;
        }
        k := k + 1;
      }
      return false, k;
    }

    /**
     * pathcomp_next: nothing moves once done; otherwise the combination
     * advances, and when every attribute has wrapped, done is set.
     */
    method Next() returns (moved: bool)
      requires Valid()
      modifies this, attributes
      ensures Valid() && attributes == old(attributes) && name == old(name)
      ensures Advanced(moved, Snap()) == NextOf(old(Snap()))
    {
      if done {
        return false;
      }
      ghost var c := Snap();
      ghost var i;
      moved, i := Carry();
      if moved {
        NextFirstMoves(c, i, States());
        assert Snap() == c.(atts := States());
      } else {
        NextWrapsAll(c, States());
        done := true;
        assert Snap() == State(States(), true, c.started);
      }
      assert Good(NextOf(c).state.atts);
    }

    /**
     * One round of pathcomp_find's loop: advance unless this is the first
     * round since a reset, then stop when the combinations have run out or
     * the current one's path exists.
     */
    method Attempt(lua: Lua, present: CStr -> bool) returns (stop: bool, path: Option<CStr>)
      requires Valid()
      modifies this, attributes
      ensures Valid() && attributes == old(attributes) && name == old(name)
      ensures Snap() == Probe(old(Snap()))
      ensures stop <==> done || Hit(States(), lua, present)
      ensures stop ==> path == if done then None else YieldOf(States(), lua)
    {
      Begin();
      if done {
        return true, None;
      }
      var p := Yield(lua);
      if p.Some? && present(p.value) {
        return true, p;
      }
      return false, None;
    }

    /** The start of a round: advance unless no round has run since the
        last reset, and mark the enumeration as started. */
    method Begin()
      requires Valid()
      modifies this, attributes
      ensures Valid() && attributes == old(attributes) && name == old(name)
      ensures Snap() == Probe(old(Snap()))
    {
      ghost var before := Snap();
      if started {
        var _ := Next();
      }
      ghost var mid := Snap();
      assert mid == if before.started then NextOf(before).state else before;
      started := true;
      assert States() == mid.atts;
    }

    /**
     * pathcomp_find: round after round until a combination's path exists
     * or the combinations run out. `present` stands for the stat(2) test
     * of path_exists.
     */
    method Find(lua: Lua, present: CStr -> bool) returns (path: Option<CStr>)
      requires Valid()
      modifies this, attributes
      ensures Valid() && attributes == old(attributes) && name == old(name)
      ensures Found(path, Snap()) == FindOf(old(Snap()), lua, present)
    {
      ghost var target := FindOf(Snap(), lua, present);
      path := None;
      var stop := false;
      while !stop
        invariant Valid() && attributes == old(attributes) && name == old(name)
        invariant !stop ==> FindOf(Snap(), lua, present) == target
        invariant stop ==> Found(path, Snap()) == target
        decreases if stop then 0 else 1 + FindMeasure(Snap())
      {
        ghost var before := Snap();
        FindRound(before, lua, present);
        stop, path := Attempt(lua, present);
      }
    }

    /**
     * pathcomp_mkdir: each prefix of the yielded path that ends a component
     * before a slash is handed to `mkdir`, shortest first; the result is
     * false when any of them failed for a reason other than being there
     * already. The prefixes handed over are returned too.
     */
    method Mkdir(lua: Lua, mkdir: seq<Byte> -> MkdirOutcome) returns (success: bool, tried: seq<seq<Byte>>)
      requires Valid() && YieldOf(States(), lua).Some?
      ensures tried == DirPrefixes(YieldOf(States(), lua).value)
      ensures success == AllMade(tried, mkdir)
    {
      var y := Yield(lua);
      success, tried := MakeDirs(y.value, mkdir);
    }

    /** The inner loop of pathcomp_make_from_config: every entry of one
        section, in order, through pathcomp_add. */
    method AddEntries(es: seq<Entry>)
      requires Valid() && EntriesAreC(es)
      modifies this, attributes
      ensures Valid() && name == old(name)
      ensures Snap() == WithEntries(old(Snap()), es)
      ensures forall i | 0 <= i < |attributes| :: attributes[i] in old(attributes) || fresh(attributes[i])
    {
      ghost var target := WithEntries(Snap(), es);
      var e := 0;
      while e < |es|
        invariant 0 <= e <= |es| && Valid() && name == old(name)
        invariant forall i | 0 <= i < |attributes| :: attributes[i] in old(attributes) || fresh(attributes[i])
        invariant EntriesAreC(es[e..])
        invariant WithEntries(Snap(), es[e..]) == target
      {
        WithEntriesStep(Snap(), es, e);
        Add(es[e].key, es[e].value);
        e := e + 1;
      }
    }

    /** One section of pathcomp_make_from_config: find_section_with_name
        decides whether its entries are added. */
    method AddSection(sec: Section)
      requires Valid() && EntriesAreC(sec.entries)
      modifies this, attributes
      ensures Valid() && name == old(name)
      ensures Snap() == if sec.name == name then WithEntries(old(Snap()), sec.entries) else old(Snap())
      ensures forall i | 0 <= i < |attributes| :: attributes[i] in old(attributes) || fresh(attributes[i])
    {
      if sec.name == name {
        AddEntries(sec.entries);
      }
    }

    /**
     * pathcomp_make_from_config: the sections named like the composer, in
     * order, each entry added with pathcomp_add; nothing happens without a
     * configuration.
     */
    method MakeFromConfig(config: Config?)
      requires Valid() && (config != null ==> config.Valid())
      modifies this, attributes
      ensures Valid() && name == old(name)
      ensures config == null ==> Snap() == old(Snap()) && attributes == old(attributes)
      ensures config != null ==> Snap() == WithSections(old(Snap()), old(config.sections), name)
      ensures forall i | 0 <= i < |attributes| :: attributes[i] in old(attributes) || fresh(attributes[i])
    {
      if config == null {
        return;
      }
      var secs := config.sections;
      assert SectionsAreC(secs);
      ghost var target := WithSections(Snap(), secs, name);
      var s := 0;
      while s < |secs|
        invariant 0 <= s <= |secs| && Valid() && name == old(name)
        invariant forall i | 0 <= i < |attributes| :: attributes[i] in old(attributes) || fresh(attributes[i])
        invariant SectionsAreC(secs[s..])
        invariant WithSections(Snap(), secs[s..], name) == target
      {
        WithSectionsStep(Snap(), secs, s, name);
        AddSection(secs[s]);
        s := s + 1;
      }
    }
  }
}
