/**
 * Attribute values: text is either kept as a literal or, when it has the
 * form `lua { ... }`, turned into the source of a Lua chunk.
 */
module Values {
  import opened Wrappers
  import opened Bytes
  import opened Buffers

  datatype Value = Literal(literal: CStr) | LuaCode(source: CStr)

  const Keyword: CStr := "lua"

  /** Prepended to the code between the braces, so the chunk sees its
      argument (the composer) as `self`. */
  const Preamble: CStr := "local self = ...; "

  predicate AllSpaces(w: seq<Byte>) {
    forall i | 0 <= i < |w| :: IsSpaceByte(w[i])
  }

  /** The text after `lua` and the whitespace that follows it. */
  function AfterKeyword(text: CStr): CStr
    requires |text| >= |Keyword|
  {
    LTrimmedDropsSpaces(text[|Keyword|..]);
    LTrimmed(text[|Keyword|..])
  }

  /**
   * The Lua source the text stands for, or None for a literal: the text must
   * start with `lua`, optional whitespace and `{`; the source is the preamble
   * followed by everything up to the last `}`. Text that has no `}` after
   * the opening brace is a literal.
   */
  function LuaSource(text: CStr): Option<CStr> {
    if |text| < |Keyword| || text[..|Keyword|] != Keyword then None
    else
      var rest := AfterKeyword(text);
      if rest == [] || rest[0] != '{' then None
      else CodeOf(rest[1..])
  }

  /** The chunk for the code after the opening brace: the preamble and the
      code up to the last `}`, or None without one. */
  function CodeOf(body: CStr): Option<CStr> {
    match LastIndexOf(body, '}')
    case None => None
    case Some(q) => Some(Preamble + body[..q])
  }

  /** How is_lua_code ends as written. */
  datatype Scan = NotLua | Lua(source: CStr) | AssertionFails

  /**
   * is_lua_code as written (src/value.c:44-46): the result of strrchr is
   * used without a check, so a text with no closing brace reaches
   * buf_setlen with a length no allocation can satisfy, and its assertion
   * aborts the program.
   */
  function IsLuaCodeAsWritten(text: CStr): Scan {
    if |text| < |Keyword| || text[..|Keyword|] != Keyword then NotLua
    else
      var rest := AfterKeyword(text);
      if rest == [] || rest[0] != '{' then NotLua
      else
        var code: CStr := Preamble + rest[1..];
        match LastIndexOf(code, '}')
        case None => AssertionFails
        case Some(q) => Lua(code[..q])
  }

  /** The text a test expects to stay literal aborts the program as written. */
  lemma MissingBraceAborts()
    ensures IsLuaCodeAsWritten("lua { return 1+2+3") == AssertionFails
    ensures LuaSource("lua { return 1+2+3") == None
  {
    var body: CStr := " return 1+2+3";
    MissingBraceSplit();
    assert '}' !in body;
    LastIndexOfAfterPreamble(body);
  }

  lemma MissingBraceSplit()
    ensures AfterKeyword("lua { return 1+2+3") == "{ return 1+2+3"
    ensures "lua { return 1+2+3"[..3] == Keyword
  {
    var t: seq<Byte> := "lua { return 1+2+3";
    var after: seq<Byte> := "{ return 1+2+3";
    assert t[3..] == " " + after by {
      assert forall i | 0 <= i < |t| - 3 :: t[3..][i] == (" " + after)[i];
    }
    LTrimmedUnique(" ", after);
  }

  /** Apart from that case, the corrected classification agrees with the
      code as written. */
  lemma AsWrittenAgrees(text: CStr)
    ensures IsLuaCodeAsWritten(text) != AssertionFails ==>
      (IsLuaCodeAsWritten(text).NotLua? <==> LuaSource(text).None?)
    ensures IsLuaCodeAsWritten(text).Lua? ==> LuaSource(text) == Some(IsLuaCodeAsWritten(text).source)
  {
    if |text| >= |Keyword| && text[..|Keyword|] == Keyword {
      var rest := AfterKeyword(text);
      if rest != [] && rest[0] == '{' {
        var body := rest[1..];
        LastIndexOfAfterPreamble(body);
        if q :| LastIndexOf(body, '}') == Some(q) {
          assert (Preamble + body)[..|Preamble| + q] == Preamble + body[..q];
        }
      }
    }
  }

  /** The preamble has no `}`, so strrchr lands in the code part. */
  lemma LastIndexOfAfterPreamble(body: seq<Byte>)
    ensures match LastIndexOf(body, '}')
      case None => LastIndexOf(Preamble + body, '}') == None
      case Some(q) => LastIndexOf(Preamble + body, '}') == Some(|Preamble| + q)
  {
    var s := Preamble + body;
    assert '}' !in Preamble;
    match LastIndexOf(body, '}')
    case None =>
      assert '}' !in s;
    case Some(q) =>
      assert s[|Preamble| + q] == '}';
      assert s[|Preamble| + q + 1..] == body[q + 1..];
  }

  /** A text of the Lua form classifies to exactly its code. */
  lemma LuaSourceOfForm(w: CStr, body: CStr, tail: CStr)
    requires AllSpaces(w) && '}' !in tail
    ensures LuaSource(Keyword + w + "{" + body + "}" + tail) == Some(Preamble + body)
  {
    var text := Keyword + w + "{" + body + "}" + tail;
    assert text[..|Keyword|] == Keyword;
    var after := "{" + body + "}" + tail;
    assert text[|Keyword|..] == w + after;
    LTrimmedUnique(w, after);
    var b := body + "}" + tail;
    assert after[1..] == b;
    assert b[|body|] == '}' && b[|body| + 1..] == tail;
    assert b[..|body|] == body;
  }

  /** Every Lua classification comes from a text of that form. */
  lemma LuaSourceHasForm(text: CStr)
    requires LuaSource(text).Some?
    ensures exists k, q | |Keyword| <= k < q < |text| ::
      && text[..|Keyword|] == Keyword && AllSpaces(text[|Keyword|..k])
      && text[k] == '{' && text[q] == '}' && '}' !in text[q + 1..]
      && LuaSource(text).value == Preamble + text[k + 1..q]
  {
    var t := text[|Keyword|..];
    var rest := LTrimmed(t);
    LTrimmedDropsSpaces(t);
    var k := |Keyword| + |t| - |rest|;
    assert text[k..] == rest;
    var body := rest[1..];
    var q := LastIndexOf(body, '}').value;
    assert text[k + 1..] == body;
    assert text[k + 1 + q] == '}';
    assert text[k + 1 + q + 1..] == body[q + 1..];
    assert text[k + 1..k + 1 + q] == body[..q];
    assert AllSpaces(text[|Keyword|..k]) by {
      assert text[|Keyword|..k] == t[..|t| - |rest|];
    }
  }

  /** value_new as a pure function: the classification of the text. */
  function Classify(text: CStr): (v: Value)
    ensures v.Literal? <==> LuaSource(text).None?
    ensures v.Literal? ==> v.literal == text
    ensures v.LuaCode? ==> Some(v.source) == LuaSource(text)
  {
    match LuaSource(text)
    case None => Literal(text)
    case Some(src) => LuaCode(src)
  }

  /** value_eval: a literal evaluates to itself; Lua code goes to the
      interpreter, which sees the context and may fail (None). */
  function ValueEval<C>(v: Value, ctx: C, lua: (CStr, C) -> Option<CStr>): (r: Option<CStr>)
    ensures v.Literal? ==> r == Some(v.literal)
    ensures v.LuaCode? ==> r == lua(v.source, ctx)
  {
    match v
    case Literal(s) => Some(s)
    case LuaCode(src) => lua(src, ctx)
  }

  /** Text that is not of the Lua form evaluates to itself, whatever the
      interpreter would do. */
  lemma LiteralEvaluatesToText<C>(text: CStr, ctx: C, lua: (CStr, C) -> Option<CStr>)
    requires LuaSource(text).None?
    ensures ValueEval(Classify(text), ctx, lua) == Some(text)
  {
  }

  /** is_lua_code, on a buffer: copy the text, check the keyword, skip the
      whitespace, check the brace, replace the prefix by the preamble and cut
      at the last `}`. */
  method IsLuaCode(text: CStr) returns (r: Option<CStr>)
    ensures r == LuaSource(text)
  {
    var buf := new Buffer.Init(|text| + |Preamble|);
    buf.AddStr(text);
    var p := BraceAfterKeyword(buf, text);
    if p.None? {
      buf.Release();
      return None;
    }
    ghost var body: CStr := text[p.value..];
    PutPreamble(buf, p.value, text);
    r := CutAtLastBrace(buf, body);
  }

  /** The text up to the position past the brace replaced by the preamble. */
  method PutPreamble(buf: Buffer, p: nat, ghost text: CStr)
    requires buf.Valid() && buf.Contents() == text && p <= |text|
    modifies buf, buf.buf
    ensures buf.Valid() && buf.Contents() == Preamble + text[p..]
    ensures buf.buf == old(buf.buf) || fresh(buf.buf)
  {
    buf.SpliceStr(0, p, Some(Preamble));
    assert text[..0] + Preamble == Preamble;
  }

  /** The checks of is_lua_code on the buffer holding the text: the keyword,
      the whitespace after it and the opening brace; the position just past
      the brace, or None when the text is not of the Lua form. */
  method BraceAfterKeyword(buf: Buffer, ghost text: CStr) returns (p: Option<nat>)
    requires buf.Valid() && buf.Contents() == text
    ensures p.None? <==> (|text| < |Keyword| || text[..|Keyword|] != Keyword
                          || AfterKeyword(text) == [] || AfterKeyword(text)[0] != '{')
    ensures p.Some? ==> |Keyword| < p.value <= |text| && text[p.value..] == AfterKeyword(text)[1..]
  {
    if buf.len < |Keyword| || buf.Contents()[..|Keyword|] != Keyword {
      return None;
    }
    var i := |Keyword|;
    while i < buf.len && IsSpaceByte(buf.buf[i])
      invariant |Keyword| <= i <= buf.len == |text|
      invariant AllSpaces(text[|Keyword|..i])
    {
      assert text[|Keyword|..i + 1] == text[|Keyword|..i] + [text[i]];
      i := i + 1;
    }
    SkippedSpaces(text, i);
    if i == buf.len || buf.buf[i] != '{' {
      return None;
    }
    return Some(i + 1);
  }

  /** The end of is_lua_code: the buffer holds the preamble and the code;
      cut it at its last `}` and detach it. */
  method CutAtLastBrace(buf: Buffer, ghost body: CStr) returns (r: Option<CStr>)
    requires buf.Valid() && buf.Contents() == Preamble + body
    modifies buf, buf.buf
    ensures r == CodeOf(body)
  {
    var q := LastIndexOf(buf.Contents(), '}');
    LastIndexOfAfterPreamble(body);
    if q.None? {
      buf.Release();
      return None;
    }
    ghost var qb := LastIndexOf(body, '}').value;
    assert buf.buf[..q.value] == buf.Contents()[..q.value];
    buf.SetLen(q.value);
    var s := buf.Detach();
    BodyCut(body, qb);
    return Some(s);
  }

  lemma SkippedSpaces(text: CStr, p: nat)
    requires |Keyword| <= p <= |text| && AllSpaces(text[|Keyword|..p])
    requires p < |text| ==> !IsSpaceByte(text[p])
    ensures AfterKeyword(text) == text[p..]
  {
    assert text[|Keyword|..] == text[|Keyword|..p] + text[p..];
    LTrimmedUnique(text[|Keyword|..p], text[p..]);
  }

  lemma BodyCut(body: seq<Byte>, q: nat)
    requires q <= |body|
    ensures (Preamble + body)[..|Preamble| + q] == Preamble + body[..q]
  {
  }

  /** value_new: classifies the text. */
  method ValueNew(text: CStr) returns (v: Value)
    ensures v == Classify(text)
  {
    var source := IsLuaCode(text);
    if source.Some? {
      v := LuaCode(source.value);
    } else {
      v := Literal(text);
    }
  }
}
