/**
 * Attributes: a name, the alternative values given for it, and a cursor on
 * the alternative currently in use.
 */
module Atts {
  import opened Wrappers
  import opened Bytes
  import opened Values

  /** An attribute as a value: what the composer's enumeration and the Lua
      oracle see of it. */
  datatype AttState = AttState(name: CStr, values: seq<Value>, current: nat)

  /** An attribute has at least one alternative and its cursor is on one. */
  predicate WellFormed(a: AttState) {
    0 <= a.current < |a.values|
  }

  /** att_eval on a snapshot: the alternative under the cursor, evaluated. */
  function EvalAtt<C>(a: AttState, ctx: C, lua: (CStr, C) -> Option<CStr>): (r: Option<CStr>)
    requires WellFormed(a)
    ensures a.values[a.current].Literal? ==> r == Some(a.values[a.current].literal)
    ensures a.values[a.current].LuaCode? ==> r == lua(a.values[a.current].source, ctx)
  {
    ValueEval(a.values[a.current], ctx, lua)
  }

  class Attribute {
    var name: CStr
    var values: seq<Value>
    var current: nat

    ghost predicate Valid()
      reads this
    {
      WellFormed(State())
    }

    function State(): AttState
      reads this
    {
      AttState(name, values, current)
    }

    /** att_new: the name and exactly one value, classified by value_new. */
    constructor New(name: CStr, value: CStr)
      ensures Valid()
      ensures this.name == name && values == [Classify(value)] && current == 0
    {
      var v := ValueNew(value);
      this.name := name;
      values := [v];
      current := 0;
    }

    /** att_replace_value: every former alternative goes, the new value is
        the only one. */
    method ReplaceValue(value: CStr)
      modifies this
      ensures Valid()
      ensures name == old(name) && values == [Classify(value)] && current == 0
    {
      var v := ValueNew(value);
      values := [v];
      current := 0;
    }

    /** att_add_value: one more alternative at the end; the cursor stays. */
    method AddValue(value: CStr)
      requires Valid()
      modifies this
      ensures Valid()
      ensures name == old(name) && values == old(values) + [Classify(value)]
      ensures current == old(current)
    {
      var v := ValueNew(value);
      values := values + [v];
    }

    /** att_name_equal_to: strcmp reports equality. */
    function NameEqualTo(n: CStr): (r: bool)
      reads this
      ensures r <==> name == n
    {
      StrCmpZeroIff(name, n);
      StrCmp(name, n) == 0
    }

    /** att_reset: the cursor goes back to the first alternative; a
        single-valued attribute has no cursor to move. */
    method Reset()
      requires Valid()
      modifies this`current
      ensures Valid() && current == 0
      ensures |values| == 1 ==> current == old(current)
    {
      if |values| == 1 {
        return;
      }
      current := 0;
    }

    /**
     * att_next: the cursor moves on to the following alternative and the
     * call reports true; past the last one it wraps back to the first and
     * reports false.
     */
    method Next() returns (moved: bool)
      requires Valid()
      modifies this`current
      ensures Valid()
      ensures moved <==> old(current) + 1 < |values|
      ensures current == if moved then old(current) + 1 else 0
    {
      if |values| == 1 {
        return false;
      }
      if current + 1 < |values| {
        current := current + 1;
        return true;
      }
      current := 0;
      return false;
    }
  }
}
