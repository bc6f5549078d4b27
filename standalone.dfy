/**
 * The command line's attribute arguments: `key=value` sets an attribute of
 * the composer, `key+=value` adds an alternative to it.
 */
module Standalone {
  import opened Wrappers
  import opened Bytes
  import opened Values
  import opened ComposerStates
  import opened Composers

  /** One attribute argument: the key without its `+`, the value, and
      whether the `+` was there. */
  datatype Kv = Kv(key: CStr, value: CStr, add: bool)

  /** The argument text an argument is read from. */
  function Render(kv: Kv): (r: CStr)
    ensures |r| == |kv.key| + (if kv.add then 1 else 0) + 1 + |kv.value|
  {
    var mark: seq<Byte> := if kv.add then ['+', '='] else ['='];
    var r := kv.key + mark + kv.value;
    assert forall i | 0 <= i < |r| :: r[i] == if i < |kv.key| then kv.key[i]
      else if i < |kv.key| + |mark| then mark[i - |kv.key|] else kv.value[i - |kv.key| - |mark|];
    r
  }

  /**
   * kv_new: the text up to the first `=` is the key and the rest is the
   * value; an empty key is refused; a key ending in `+` loses it and makes
   * the argument an addition. The `+` is looked for after the emptiness
   * test, so `+=v` gives an addition under the empty key.
   */
  function KvNew(text: CStr): (r: Option<Kv>)
    requires '=' in text
    ensures r.None? <==> text[0] == '='
  {
    var j := IndexOf(text, '=').value;
    NoNulSlice(text, 0, j);
    NoNulSlice(text, j + 1, |text|);
    var key, value: CStr := text[..j], text[j + 1..];
    if |key| < 1 then None
    else if key[|key| - 1] == '+' then
      NoNulSlice(key, 0, |key| - 1);
      Some(Kv(key[..|key| - 1], value, true))
    else Some(Kv(key, value, false))
  }

  lemma NoNulSlice(s: seq<Byte>, i: nat, j: nat)
    requires NoNul(s) && i <= j <= |s|
    ensures NoNul(s[i..j])
  {
    assert forall k | 0 <= k < j - i :: s[i..j][k] == s[i + k];
  }

  /** What kv_new keeps is the whole argument: rendering it gives the text
      back, the key holds no `=`, and a non-addition has a key that is not
      empty and does not end in `+`. */
  lemma KvNewRendersBack(text: CStr)
    requires '=' in text
    ensures var r := KvNew(text);
      && (r.Some? ==> Render(r.value) == text && '=' !in r.value.key)
      && (r.Some? && !r.value.add ==> r.value.key != [] && r.value.key[|r.value.key| - 1] != '+')
  {
    var j := IndexOf(text, '=').value;
    var key, value := text[..j], text[j + 1..];
    assert text == key + ['='] + value;
    var r := KvNew(text);
    if r.Some? && r.value.add {
      assert key == r.value.key + ['+'];
    }
  }

  /** Reading back a rendered argument gives it again, for every argument
      kv_new can produce. */
  lemma KvNewRender(kv: Kv)
    requires '=' !in kv.key
    requires kv.add || (kv.key != [] && kv.key[|kv.key| - 1] != '+')
    ensures '=' in Render(kv) && KvNew(Render(kv)) == Some(kv)
  {
    var t := Render(kv);
    var j := |kv.key| + (if kv.add then 1 else 0);
    var key: seq<Byte> := kv.key + (if kv.add then ['+'] else []);
    RenderParts(kv, j, key);
    IndexOfIs(t, '=', j);
    assert t[..j] == key && t[j + 1..] == kv.value;
    if kv.add {
      assert |key| >= 1 && key[|key| - 1] == '+';
      assert key[..|key| - 1] == kv.key;
      assert KvNew(t) == Some(Kv(key[..|key| - 1], kv.value, true));
    } else {
      assert key == kv.key;
      assert KvNew(t) == Some(Kv(key, kv.value, false));
    }
  }

  /** The rendered text cut at its `=`. */
  lemma RenderParts(kv: Kv, j: nat, key: seq<Byte>)
    requires '=' !in kv.key
    requires j == |kv.key| + (if kv.add then 1 else 0)
    requires key == kv.key + (if kv.add then ['+'] else [])
    ensures j < |Render(kv)| && Render(kv)[j] == '='
    ensures Render(kv)[..j] == key && Render(kv)[j + 1..] == kv.value
    ensures '=' !in key
  {
    var mark: seq<Byte> := if kv.add then ['+', '='] else ['='];
    assert Render(kv) == key + ['='] + kv.value;
  }

  /** The first `=` is the one at j when none comes before. */
  lemma IndexOfIs(s: seq<Byte>, c: Byte, j: nat)
    requires j < |s| && s[j] == c && c !in s[..j]
    ensures IndexOf(s, c) == Some(j)
  {
  }

  /** What kv_add_to_composer does to the composer. */
  function KvEffect(c: State, kv: Kv): State
    requires Good(c.atts)
  {
    if kv.add then AddOf(c, kv.key, kv.value) else SetOf(c, kv.key, kv.value)
  }

  /** kv_add_to_composer: pathcomp_add for an addition, pathcomp_set
      otherwise. */
  method KvAddToComposer(kv: Kv, composer: Composer)
    requires composer.Valid()
    modifies composer, composer.attributes
    ensures composer.Valid() && composer.name == old(composer.name)
    ensures composer.Snap() == KvEffect(old(composer.Snap()), kv)
  {
    if kv.add {
      composer.Add(kv.key, kv.value);
    } else {
      composer.Set(kv.key, kv.value);
    }
  }

  /** After the argument, its key holds the value alone (`=`) or the former
      values and the new one (`+=`); every other key keeps its values. */
  lemma KvEffectValues(c: State, kv: Kv, k: CStr)
    requires Good(c.atts)
    ensures ValuesOf(KvEffect(c, kv).atts, k) ==
      if k != kv.key then ValuesOf(c.atts, k)
      else if kv.add then ValuesOf(c.atts, k) + [Classify(kv.value)]
      else [Classify(kv.value)]
  {
    if kv.add {
      AddOfValues(c, kv.key, kv.value, k);
    } else {
      SetOfValues(c, kv.key, kv.value, k);
    }
  }
}
