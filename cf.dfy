/**
 * The INI-style configuration: a sequence of sections, each a name and the
 * key/value entries under it, parsed from text one character at a time
 * through a buffer's read cursor.
 */
module Configs {
  import opened Wrappers
  import opened Bytes
  import opened Buffers

  datatype Entry = Entry(key: seq<Byte>, value: seq<Byte>)
  datatype Section = Section(name: seq<Byte>, entries: seq<Entry>)

  /* ---- The text, as the parser reads it ---- */

  /** buf_fgetc gives a negative number: the byte is 0x80 or above, which a
      signed char turns negative, and every loop treats that as the end. */
  predicate Ends(b: Byte) {
    Signed(b) < 0
  }

  /** What ends a section name: `]`, a newline or the end of the text. */
  predicate NameStop(b: Byte) {
    Ends(b) || b == '\n' || b == ']'
  }

  /** What ends a key: `=`, or a newline, a bracket or the end of the text. */
  predicate KeyStop(b: Byte) {
    Ends(b) || b == '\n' || b == '[' || b == ']' || b == '='
  }

  /** What ends the whitespace before a value. */
  predicate BlankStop(b: Byte) {
    !IsSpaceByte(b) || b == '\n'
  }

  /** The position of the first byte satisfying stop, or the length. */
  function FirstStop(r: seq<Byte>, stop: Byte -> bool): (j: nat)
    ensures j <= |r|
    ensures forall i | 0 <= i < j :: !stop(r[i])
    ensures j < |r| ==> stop(r[j])
  {
    if r == [] || stop(r[0]) then 0
    else
      var j := FirstStop(r[1..], stop);
      assert forall i | 1 <= i < j + 1 :: r[i] == r[1..][i - 1];
      1 + j
  }

  lemma FirstStopAt(r: seq<Byte>, stop: Byte -> bool, j: nat)
    requires j <= |r| && forall i | 0 <= i < j :: !stop(r[i])
    requires j < |r| ==> stop(r[j])
    ensures FirstStop(r, stop) == j
  {
  }

  /** A name that a header can carry: it holds no `]`, no newline and no
      byte that reads as negative. */
  predicate NameOk(n: seq<Byte>) {
    forall i | 0 <= i < |n| :: !NameStop(n[i])
  }

  /** A key that reads back as itself: not empty, free of the bytes that
      end a key, and starting and ending with a byte that is neither
      whitespace nor the start of a comment. */
  predicate KeyOk(k: seq<Byte>) {
    && k != []
    && (forall i | 0 <= i < |k| :: !KeyStop(k[i]))
    && !IsSpaceByte(k[0]) && k[0] != ';' && k[0] != '#'
    && !IsSpaceByte(k[|k| - 1])
  }

  /** A value as the parser leaves it: no newline, and no whitespace at
      its end. */
  predicate ValueShape(v: seq<Byte>) {
    && (forall i | 0 <= i < |v| :: v[i] != '\n')
    && (v != [] ==> !IsSpaceByte(v[|v| - 1]))
  }

  /** An entry as the parser makes it. */
  predicate EntryShape(e: Entry) {
    KeyOk(e.key) && ValueShape(e.value)
  }

  /** A section as the parser makes it: a header's name and entries as the
      parser makes them. */
  predicate SectionShape(s: Section) {
    NameOk(s.name) && forall i | 0 <= i < |s.entries| :: EntryShape(s.entries[i])
  }

  predicate Shaped(secs: seq<Section>) {
    forall i | 0 <= i < |secs| :: SectionShape(secs[i])
  }

  /** A piece of text taken from the input and the number of bytes read. */
  datatype Scanned = Scanned(text: seq<Byte>, used: nat)

  /** cf_parse_section_name on the text after `[`: the bytes up to `]`,
      verbatim, and the bytes read including the `]`. */
  function HeaderAt(r: seq<Byte>): (h: Option<Scanned>)
    ensures h.Some? ==> 0 < h.value.used <= |r| && r[h.value.used - 1] == ']'
    ensures h.Some? ==> h.value.text == r[..h.value.used - 1]
    ensures h.Some? ==> forall i | 0 <= i < |h.value.text| :: !NameStop(h.value.text[i])
  {
    var j := FirstStop(r, NameStop);
    if j < |r| && r[j] == ']' then Some(Scanned(r[..j], j + 1)) else None
  }

  /**
   * The loop of cf_parse_value, with the backslash at the end of the text
   * kept as a backslash: a newline or a byte read as negative ends the
   * value; a backslash before a newline joins the lines; any other
   * backslash stays, with the byte after it.
   */
  function ValueBody(r: seq<Byte>): (v: Scanned)
    ensures v.used <= |r|
    decreases |r|
  {
    if r == [] then Scanned([], 0)
    else if Ends(r[0]) || r[0] == '\n' then Scanned([], 1)
    else if r[0] == '\\' then
      if |r| == 1 then Scanned(['\\'], 1)
      else
        var rest := ValueBody(r[2..]);
        if r[1] == '\n' then Scanned(rest.text, 2 + rest.used)
        else Scanned(['\\', r[1]] + rest.text, 2 + rest.used)
    else
      var rest := ValueBody(r[1..]);
      Scanned([r[0]] + rest.text, 1 + rest.used)
  }

  /**
   * The loop of cf_parse_value as written: at a backslash that ends the
   * text, the second buf_fgetc gives EOF, and EOF is then stored as the
   * byte 0xFF after the backslash.
   */
  function ValueBodyAsWritten(r: seq<Byte>): (v: Scanned)
    decreases |r|
  {
    if r == [] then Scanned([], 0)
    else if Ends(r[0]) || r[0] == '\n' then Scanned([], 1)
    else if r[0] == '\\' then
      if |r| == 1 then Scanned(['\\', ToByte(EOF)], 1)
      else
        var rest := ValueBodyAsWritten(r[2..]);
        if r[1] == '\n' then Scanned(rest.text, 2 + rest.used)
        else Scanned(['\\', r[1]] + rest.text, 2 + rest.used)
    else
      var rest := ValueBodyAsWritten(r[1..]);
      Scanned([r[0]] + rest.text, 1 + rest.used)
  }

  /** cf_parse_value: skip the whitespace on the line, then the value. */
  function ValueOf(r: seq<Byte>): (v: Scanned)
    ensures v.used <= |r|
  {
    var s := FirstStop(r, BlankStop);
    var b := ValueBody(r[s..]);
    Scanned(b.text, s + b.used)
  }

  /** A value is read up to the newline or negative byte that ends it, or
      to the end of the text, and never holds a newline: a newline after a
      backslash joins the lines. */
  lemma {:induction false} ValueBodyShape(r: seq<Byte>)
    ensures var v := ValueBody(r);
      && (r != [] ==> 0 < v.used)
      && (0 < v.used < |r| ==> r[v.used - 1] == '\n' || Ends(r[v.used - 1]))
      && forall i | 0 <= i < |v.text| :: v.text[i] != '\n'
    decreases |r|
  {
    if r != [] && !Ends(r[0]) && r[0] != '\n' {
      if r[0] == '\\' {
        if |r| > 1 {
          ValueBodyShape(r[2..]);
        }
      } else {
        ValueBodyShape(r[1..]);
      }
    }
  }

  /** The same for the value after the blanks that start it. */
  lemma ValueOfShape(r: seq<Byte>)
    ensures var v := ValueOf(r);
      && (r != [] ==> 0 < v.used)
      && (0 < v.used < |r| ==> r[v.used - 1] == '\n' || Ends(r[v.used - 1]))
      && forall i | 0 <= i < |v.text| :: v.text[i] != '\n'
  {
    var s := FirstStop(r, BlankStop);
    ValueBodyShape(r[s..]);
  }

  /** A key and its value as cf_parse_key_value_pair reads them: the value
      is not yet trimmed. */
  datatype KeyValue = KeyValue(key: seq<Byte>, value: seq<Byte>, used: nat)

  /** cf_parse_key_value_pair: the bytes before `=`, right-trimmed, and the
      value after it; None when a newline, a bracket or the end comes first. */
  function KeyValueAt(r: seq<Byte>): (kv: Option<KeyValue>)
    ensures kv.Some? <==>
      exists j | 0 <= j < |r| :: r[j] == '=' && forall i | 0 <= i < j :: !KeyStop(r[i])
    ensures kv.Some? ==> 0 < kv.value.used <= |r|
    ensures kv.Some? ==> forall i | 0 <= i < |kv.value.key| :: !KeyStop(kv.value.key[i])
    ensures kv.Some? && kv.value.key != [] ==> !IsSpaceByte(kv.value.key[|kv.value.key| - 1])
    ensures kv.Some? && r != [] && !KeyStop(r[0]) && !IsSpaceByte(r[0]) ==>
      kv.value.key != [] && kv.value.key[0] == r[0]
    ensures kv.Some? ==> forall i | 0 <= i < |kv.value.value| :: kv.value.value[i] != '\n'
  {
    var j := FirstStop(r, KeyStop);
    KeyEndsAt(r);
    if j < |r| && r[j] == '=' then
      KeyTrimmed(r, j);
      ValueOfShape(r[j + 1..]);
      var v := ValueOf(r[j + 1..]);
      Some(KeyValue(RTrimmed(r[..j]), v.text, j + 1 + v.used))
    else None
  }

  /** The key ends well exactly when an `=` comes before any other byte that
      ends a key. */
  lemma KeyEndsAt(r: seq<Byte>)
    ensures var j := FirstStop(r, KeyStop);
      (j < |r| && r[j] == '=') <==>
      exists k | 0 <= k < |r| :: r[k] == '=' && forall i | 0 <= i < k :: !KeyStop(r[i])
  {
    var j := FirstStop(r, KeyStop);
    forall k | 0 <= k < |r| && r[k] == '=' && forall i | 0 <= i < k :: !KeyStop(r[i])
      ensures k == j
    {
      assert KeyStop(r[k]);
    }
  }

  /** The key before the first stop, right-trimmed. */
  lemma KeyTrimmed(r: seq<Byte>, j: nat)
    requires j <= |r| && forall i | 0 <= i < j :: !KeyStop(r[i])
    ensures var k := RTrimmed(r[..j]);
      && (forall i | 0 <= i < |k| :: !KeyStop(k[i]))
      && (k != [] ==> !IsSpaceByte(k[|k| - 1]))
      && (0 < j && !IsSpaceByte(r[0]) ==> k != [] && k[0] == r[0])
  {
    RTrimmedDropsSpaces(r[..j]);
  }

  /** The entry cf_parse_text makes of a pair: the value right-trimmed. */
  function EntryOf(kv: KeyValue): Entry {
    Entry(kv.key, RTrimmed(kv.value))
  }

  function Flush(sec: Option<Section>): seq<Section> {
    if sec.Some? then [sec.value] else []
  }

  /** The entry goes to the current section; with none, it is dropped. */
  function AddEntry(sec: Option<Section>, e: Entry): Option<Section> {
    match sec
    case None => None
    case Some(s) => Some(s.(entries := s.entries + [e]))
  }

  /** The sections a parse appends to the configuration, and whether it
      reports success. */
  datatype Parsed = Parsed(sections: seq<Section>, ok: bool)

  function Prepend(done: seq<Section>, p: Parsed): Parsed {
    Parsed(done + p.sections, p.ok)
  }

  /** What one round of the loop of cf_parse_text decides: the parse stops
      with a result, or goes on after `used` bytes with the sections it has
      closed appended, the section being filled and the comment flag. */
  datatype Move =
    | Stop(result: Parsed)
    | Go(closed: seq<Section>, used: nat, sec: Option<Section>, comment: bool)

  /**
   * One round of cf_parse_text on the rest r of the text: the end of the
   * text or a byte read as negative stops the parse, appending the section
   * being filled; a newline ends a comment, `;` and `#` start one, and
   * whitespace and commented bytes are passed over; `[` closes the section
   * being filled and starts the one it names; a stray `=` or a pair that does
   * not end well stops the parse, and the section being filled is then not
   * appended; any other byte starts a pair, whose entry goes to the section
   * being filled.
   */
  function Next(r: seq<Byte>, sec: Option<Section>, comment: bool): (m: Move)
    ensures m.Go? ==> 0 < m.used <= |r|
  {
    if r == [] || Ends(r[0]) then Stop(Parsed(Flush(sec), true))
    else if r[0] == '\n' then Go([], 1, sec, false)
    else if comment || IsSpaceByte(r[0]) then Go([], 1, sec, comment)
    else if r[0] == ';' || r[0] == '#' then Go([], 1, sec, true)
    else if r[0] == '[' then
      match HeaderAt(r[1..])
      case None => Stop(Parsed(Flush(sec), false))
      case Some(h) => Go(Flush(sec), 1 + h.used, Some(Section(h.text, [])), false)
    else if r[0] == '=' then Stop(Parsed([], false))
    else
      match KeyValueAt(r)
      case None => Stop(Parsed([], false))
      case Some(kv) => Go([], kv.used, AddEntry(sec, EntryOf(kv)), false)
  }

  /**
   * A round succeeds only at the end of the text or at a byte read as
   * negative. It closes only sections made as the parser makes them, and
   * the section being filled keeps that shape: a header gives a name
   * without `]`, newline or negative byte, and a pair a key that reads
   * back and a value without a newline and without whitespace at its end.
   */
  lemma NextShape(r: seq<Byte>, sec: Option<Section>, comment: bool)
    ensures var m := Next(r, sec, comment);
      && (m.Stop? && m.result.ok ==> r == [] || Ends(r[0]))
      && ((sec.Some? ==> SectionShape(sec.value)) ==>
        && (m.Stop? ==> Shaped(m.result.sections))
        && (m.Go? ==> Shaped(m.closed) && (m.sec.Some? ==> SectionShape(m.sec.value))))
  {
    if r != [] && !Ends(r[0]) && r[0] != '\n' && !comment && !IsSpaceByte(r[0])
       && r[0] != ';' && r[0] != '#' && r[0] != '[' && r[0] != '=' {
      match KeyValueAt(r)
      case None =>
      case Some(kv) =>
        PairShape(r);
        if sec.Some? && SectionShape(sec.value) {
          AddedShape(sec.value, EntryOf(kv));
        }
    }
  }

  /** A pair that starts at a byte that is no stop, no blank and no comment
      mark gives an entry as the parser makes it. */
  lemma PairShape(r: seq<Byte>)
    requires r != [] && !KeyStop(r[0]) && !IsSpaceByte(r[0]) && r[0] != ';' && r[0] != '#'
    ensures KeyValueAt(r).Some? ==> EntryShape(EntryOf(KeyValueAt(r).value))
  {
    if KeyValueAt(r).Some? {
      RTrimmedDropsSpaces(KeyValueAt(r).value.value);
    }
  }

  lemma AddedShape(s: Section, e: Entry)
    requires SectionShape(s) && EntryShape(e)
    ensures SectionShape(s.(entries := s.entries + [e]))
  {
  }

  /** cf_parse_text on the rest r of the text: round after round until one
      stops the parse. */
  function ParseFrom(r: seq<Byte>, sec: Option<Section>, comment: bool): (p: Parsed)
    ensures (sec.Some? ==> SectionShape(sec.value)) ==> Shaped(p.sections)
    decreases |r|
  {
    NextShape(r, sec, comment);
    match Next(r, sec, comment)
    case Stop(p) => p
    case Go(closed, used, s, c) => Prepend(closed, ParseFrom(r[used..], s, c))
  }

  /** What parsing a whole text appends. */
  function Parse(text: seq<Byte>): (p: Parsed)
    ensures Shaped(p.sections)
  {
    ParseFrom(text, None, false)
  }

  /* ---- The parser, on buffers ---- */

  /** The unread part of a buffer. */
  function Rest(b: Buffer): seq<Byte>
    reads b, b.buf
    requires b.Valid()
  {
    b.Contents()[b.pos..]
  }


  /** cf_parse_section_name: reads up to `]` into name. */
  method ParseSectionName(text: Buffer, name: Buffer) returns (ok: bool)
    requires text.Valid() && name.Valid() && name.Contents() == []
    requires text != name && text.buf != name.buf
    modifies text`pos, name, name.buf
    ensures text.Valid() && name.Valid() && text.Contents() == old(text.Contents())
    ensures var h := HeaderAt(text.Contents()[old(text.pos)..]);
      && (ok <==> h.Some?)
      && (ok ==> name.Contents() == h.value.text && text.pos == old(text.pos) + h.value.used)
  {
    ghost var r := Rest(text);
    var ch := CopyUntil(text, name, NameStop);
    ok := ch == ']' as int;
    ghost var k := FirstStop(r, NameStop);
    if k < |r| {
      SignedIs(r[k], ']');
    }
  }

  /**
   * The loop shared by cf_parse_section_name and the key loop of
   * cf_parse_key_value_pair: bytes are read and appended to into until one
   * satisfies stop or the text ends; the byte that stopped it, or EOF, is
   * what buf_fgetc gave last.
   */
  method CopyUntil(text: Buffer, into: Buffer, stop: Byte -> bool) returns (ch: int)
    requires text.Valid() && into.Valid() && text != into && text.buf != into.buf
    requires forall b: Byte :: Ends(b) ==> stop(b)
    modifies text`pos, into, into.buf
    ensures text.Valid() && into.Valid() && text.Contents() == old(text.Contents())
    ensures into.buf == old(into.buf) || fresh(into.buf)
    ensures Copied(old(Rest(text)), stop, old(into.Contents()), ch, into.Contents(), Rest(text))
  {
    ghost var r0 := Rest(text);
    ghost var i0 := into.Contents();
    ghost var c := text.Contents();
    while true
      invariant text.Valid() && into.Valid() && text.Contents() == c && text.pos <= |c|
      invariant text.buf != into.buf && (into.buf == old(into.buf) || fresh(into.buf))
      invariant Copying(r0, stop, i0, into.Contents(), c[text.pos..])
      decreases |c| - text.pos
    {
      var more;
      ch, more := CopyRound(text, into, stop, r0, i0);
      if !more {
        break;
      }
    }
  }

  /** One round of CopyUntil, seen against the text it started on. */
  method CopyRound(text: Buffer, into: Buffer, stop: Byte -> bool, ghost r0: seq<Byte>, ghost i0: seq<Byte>)
    returns (ch: int, more: bool)
    requires text.Valid() && into.Valid() && text != into && text.buf != into.buf
    requires forall b: Byte :: Ends(b) ==> stop(b)
    requires Copying(r0, stop, i0, into.Contents(), Rest(text))
    modifies text`pos, into, into.buf
    ensures text.Valid() && into.Valid() && text.Contents() == old(text.Contents())
    ensures into.buf == old(into.buf) || fresh(into.buf)
    ensures more ==> Copying(r0, stop, i0, into.Contents(), Rest(text)) && |Rest(text)| < |old(Rest(text))|
    ensures !more ==> Copied(r0, stop, i0, ch, into.Contents(), Rest(text))
  {
    ghost var r := Rest(text);
    ghost var i := into.Contents();
    ch, more := CopyStep(text, into, stop);
    CopyingOn(r0, stop, i0, i, r, ch, more, into.Contents(), Rest(text));
  }

  /** Part way through CopyUntil: the bytes read so far are all kept and
      none satisfies stop. */
  ghost predicate Copying(r0: seq<Byte>, stop: Byte -> bool, i0: seq<Byte>, i: seq<Byte>, r: seq<Byte>) {
    && |r| <= |r0| && r == r0[|r0| - |r|..]
    && |r0| - |r| <= FirstStop(r0, stop)
    && i == i0 + r0[..|r0| - |r|]
  }

  /** The end of CopyUntil: the bytes before the first stop are kept, the
      stop itself is read, or the text is used up. */
  ghost predicate Copied(r0: seq<Byte>, stop: Byte -> bool, i0: seq<Byte>, ch: int, i: seq<Byte>, r: seq<Byte>) {
    && var j := FirstStop(r0, stop);
    && i == i0 + r0[..j]
    && (j < |r0| ==> ch == Signed(r0[j]) && r == r0[j + 1..])
    && (j == |r0| ==> ch == EOF && r == [])
  }

  /** One round of CopyUntil, as it leaves the byte read. */
  ghost predicate CopiedOne(r: seq<Byte>, stop: Byte -> bool, i: seq<Byte>, ch: int, more: bool, i': seq<Byte>, r': seq<Byte>) {
    if r == [] then ch == EOF && !more && i' == i && r' == []
    else
      && ch == Signed(r[0]) && r' == r[1..] && (more <==> !stop(r[0]))
      && i' == (if more then i + [r[0]] else i)
  }

  lemma CopyingOn(r0: seq<Byte>, stop: Byte -> bool, i0: seq<Byte>, i: seq<Byte>, r: seq<Byte>,
                  ch: int, more: bool, i': seq<Byte>, r': seq<Byte>)
    requires Copying(r0, stop, i0, i, r) && CopiedOne(r, stop, i, ch, more, i', r')
    ensures more ==> Copying(r0, stop, i0, i', r') && |r'| < |r|
    ensures !more ==> Copied(r0, stop, i0, ch, i', r')
  {
    var k := |r0| - |r|;
    if r == [] {
      CopyEnds(r0, stop, i0, i);
    } else {
      CopyAt(r0, r, k);
      if more {
        CopyKeeps(r0, stop, i0, i, k);
      } else {
        CopyStops(r0, stop, i0, i, k);
      }
    }
  }

  lemma CopyAt(r0: seq<Byte>, r: seq<Byte>, k: nat)
    requires r != [] && |r| <= |r0| && k == |r0| - |r| && r == r0[k..]
    ensures r[0] == r0[k] && r[1..] == r0[k + 1..]
  {
  }

  /** The text used up: all of it was kept. */
  lemma CopyEnds(r0: seq<Byte>, stop: Byte -> bool, i0: seq<Byte>, i: seq<Byte>)
    requires Copying(r0, stop, i0, i, [])
    ensures Copied(r0, stop, i0, EOF, i, [])
  {
    assert r0[..|r0|] == r0;
  }

  /** A byte that does not stop the copy comes before the first stop and is
      kept. */
  lemma CopyKeeps(r0: seq<Byte>, stop: Byte -> bool, i0: seq<Byte>, i: seq<Byte>, k: nat)
    requires k < |r0| && k <= FirstStop(r0, stop) && !stop(r0[k]) && i == i0 + r0[..k]
    ensures Copying(r0, stop, i0, i + [r0[k]], r0[k + 1..])
  {
    var r := r0[k + 1..];
    assert |r0| - |r| == k + 1;
    assert k != FirstStop(r0, stop);
    PrefixGrows(r0, k);
    assert i + [r0[k]] == i0 + r0[..k + 1];
  }

  lemma PrefixGrows(s: seq<Byte>, k: nat)
    requires k < |s|
    ensures s[..k + 1] == s[..k] + [s[k]]
  {
  }

  /** A byte that stops the copy is the first stop. */
  lemma CopyStops(r0: seq<Byte>, stop: Byte -> bool, i0: seq<Byte>, i: seq<Byte>, k: nat)
    requires k < |r0| && k <= FirstStop(r0, stop) && stop(r0[k]) && i == i0 + r0[..k]
    ensures Copied(r0, stop, i0, Signed(r0[k]), i, r0[k + 1..])
  {
  }

  /** One byte of CopyUntil. */
  method CopyStep(text: Buffer, into: Buffer, stop: Byte -> bool) returns (ch: int, more: bool)
    requires text.Valid() && into.Valid() && text != into && text.buf != into.buf
    requires forall b: Byte :: Ends(b) ==> stop(b)
    modifies text`pos, into, into.buf
    ensures text.Valid() && into.Valid() && text.Contents() == old(text.Contents())
    ensures into.buf == old(into.buf) || fresh(into.buf)
    ensures CopiedOne(old(Rest(text)), stop, old(into.Contents()), ch, more, into.Contents(), Rest(text))
  {
    ghost var c := text.Contents();
    ghost var p := text.pos;
    ch := text.FGetC();
    assert p < |c| ==> ch == Signed(c[p]) && c[p..][1..] == c[p + 1..];
    if ch < 0 || stop(ToByte(ch)) {
      more := false;
    } else {
      into.AddCh(ch);
      more := true;
    }
  }

  /** The byte read as a given character is that character. */
  lemma SignedIs(b: Byte, x: Byte)
    requires Signed(x) == x as int
    ensures Signed(b) == x as int <==> b == x
  {
  }

  /** The whitespace loop of cf_parse_value: reads up to the first byte
      that is not a space or is a newline, and pushes that back. At the end
      of the text, buf_ungetc(EOF) overwrites the last byte with 0xFF, which
      reads back as negative. */
  method SkipBlanks(text: Buffer)
    requires text.Valid()
    modifies text`pos, text.buf
    ensures text.Valid() && |text.Contents()| == old(|text.Contents()|)
    ensures var s := FirstStop(old(Rest(text)), BlankStop);
      && (s < old(|Rest(text)|) ==> text.Contents() == old(text.Contents()) && text.pos == old(text.pos) + s)
      && (s == old(|Rest(text)|) ==>
            Rest(text) == [] || (Rest(text) == [ToByte(EOF)] && text.pos + 1 == |text.Contents()|))
  {
    ghost var c := text.Contents();
    ghost var p0 := text.pos;
    ghost var r := c[p0..];
    ghost var k := 0;
    var ch := text.FGetC();
    while IsSpace(ch) && ch != '\n' as int
      invariant text.Valid() && text.Contents() == c
      invariant k <= |r| && forall j | 0 <= j < k :: !BlankStop(r[j])
      invariant (k < |r| && text.pos == p0 + k + 1 && ch == Signed(r[k]))
             || (k == |r| && text.pos == |c| && ch == EOF)
      decreases |r| - k
    {
      assert r[k] == ToByte(ch);
      k := k + 1;
      ch := text.FGetC();
      assert k < |r| ==> r[k] == c[p0 + k];
    }
    if k < |r| {
      assert BlankStop(r[k]);
    }
    FirstStopAt(r, BlankStop, k);
    var _ := text.UngetC(ch);
    if k < |r| {
      assert text.Contents() == c;
    }
  }

  /** The main loop of cf_parse_value, reading the value into value. */
  method ReadValueBody(text: Buffer, value: Buffer)
    requires text.Valid() && value.Valid() && value.Contents() == []
    requires text != value && text.buf != value.buf
    modifies text`pos, value, value.buf
    ensures text.Valid() && value.Valid() && text.Contents() == old(text.Contents())
    ensures value.buf == old(value.buf) || fresh(value.buf)
    ensures var v := ValueBody(old(Rest(text)));
      value.Contents() == v.text && text.pos == old(text.pos) + v.used
  {
    ghost var c := text.Contents();
    ghost var q := text.pos;
    ghost var target := ValueBody(c[q..]);
    var more := true;
    while more
      invariant text.Valid() && text.Contents() == c && value.Valid()
      invariant text.buf != value.buf && (value.buf == old(value.buf) || fresh(value.buf))
      invariant q <= text.pos <= |c|
      invariant more ==> var b := ValueBody(c[text.pos..]);
        value.Contents() + b.text == target.text && text.pos + b.used == q + target.used
      invariant !more ==> value.Contents() == target.text && text.pos == q + target.used
      decreases |c| - text.pos, more
    {
      ghost var p, v := text.pos, value.Contents();
      more := ReadValueStep(text, value);
      assert more ==> Advanced(c, p, v, text.pos, value.Contents());
      assert !more ==> Finished(c, p, v, text.pos, value.Contents());
    }
  }

  /** Reading from p0 with v0 read so far has reached p1 with v1 read, and
      the value ahead completes the same value at the same position. */
  ghost predicate Advanced(c: seq<Byte>, p0: nat, v0: seq<Byte>, p1: nat, v1: seq<Byte>) {
    && p0 < p1 <= |c|
    && var b0 := ValueBody(c[p0..]); var b1 := ValueBody(c[p1..]);
    v1 + b1.text == v0 + b0.text && p1 + b1.used == p0 + b0.used
  }

  /** Reading from p0 with v0 read so far has ended the value. */
  ghost predicate Finished(c: seq<Byte>, p0: nat, v0: seq<Byte>, p1: nat, v1: seq<Byte>) {
    && p0 <= |c|
    && var b0 := ValueBody(c[p0..]);
    v1 == v0 + b0.text && p1 == p0 + b0.used
  }

  /** One round of that loop: a byte, or a backslash and the byte after it.
      It reports whether the value goes on. */
  method ReadValueStep(text: Buffer, value: Buffer) returns (more: bool)
    requires text.Valid() && value.Valid()
    requires text != value && text.buf != value.buf
    modifies text`pos, value, value.buf
    ensures text.Valid() && value.Valid() && text.Contents() == old(text.Contents())
    ensures value.buf == old(value.buf) || fresh(value.buf)
    ensures text.pos <= |text.Contents()|
    ensures more ==> Advanced(text.Contents(), old(text.pos), old(value.Contents()), text.pos, value.Contents())
    ensures !more ==> Finished(text.Contents(), old(text.pos), old(value.Contents()), text.pos, value.Contents())
  {
    ghost var c := text.Contents();
    ghost var p := text.pos;
    ghost var v0 := value.Contents();
    var ch := text.FGetC();
    assert p < |c| ==> ch == Signed(c[p]);
    if ch < 0 || ch == '\n' as int {
      StopsValue(c, p, v0);
      return false;
    }
    if ch == '\\' as int {
      more := ReadEscape(text, value);
      return;
    }
    value.AddCh(ch);
    PlainByte(c, p, v0);
    return true;
  }

  /** The value ends at the end of the text, a newline or a negative byte. */
  lemma StopsValue(c: seq<Byte>, p: nat, v: seq<Byte>)
    requires p <= |c| && (p < |c| ==> Ends(c[p]) || c[p] == '\n')
    ensures Finished(c, p, v, if p == |c| then p else p + 1, v)
  {
  }

  /** Any other byte is part of the value. */
  lemma PlainByte(c: seq<Byte>, p: nat, v: seq<Byte>)
    requires p < |c| && !Ends(c[p]) && c[p] != '\n' && c[p] != '\\'
    ensures Advanced(c, p, v, p + 1, v + [c[p]])
  {
    assert c[p..][1..] == c[p + 1..];
  }

  /** The backslash case of that round, just after the backslash. */
  method ReadEscape(text: Buffer, value: Buffer) returns (more: bool)
    requires text.Valid() && value.Valid()
    requires text != value && text.buf != value.buf
    requires 0 < text.pos && text.Contents()[text.pos - 1] == '\\'
    modifies text`pos, value, value.buf
    ensures text.Valid() && value.Valid() && text.Contents() == old(text.Contents())
    ensures value.buf == old(value.buf) || fresh(value.buf)
    ensures text.pos <= |text.Contents()|
    ensures more ==> Advanced(text.Contents(), old(text.pos) - 1, old(value.Contents()), text.pos, value.Contents())
    ensures !more ==> Finished(text.Contents(), old(text.pos) - 1, old(value.Contents()), text.pos, value.Contents())
  {
    ghost var c := text.Contents();
    ghost var p := text.pos - 1;
    ghost var v0 := value.Contents();
    var at := text.FTell();
    var ch := text.FGetC();
    assert p + 1 < |c| ==> ch == Signed(c[p + 1]);
    if ch == '\n' as int {
      more := true;
    } else {
      value.AddCh('\\' as int);
      more := text.FTell() != at;
      if more {
        value.AddCh(ch);
      }
    }
    EscapeRound(c, p, v0, more, text.pos, value.Contents());
  }

  /** The three ways the backslash case ends. */
  lemma EscapeRound(c: seq<Byte>, p: nat, v0: seq<Byte>, more: bool, p1: nat, v1: seq<Byte>)
    requires p < |c| && c[p] == '\\'
    requires || (p + 1 < |c| && c[p + 1] == '\n' && more && v1 == v0 && p1 == p + 2)
             || (p + 1 < |c| && c[p + 1] != '\n' && more && v1 == v0 + ['\\', c[p + 1]] && p1 == p + 2)
             || (p + 1 == |c| && !more && v1 == v0 + ['\\'] && p1 == p + 1)
    ensures more ==> Advanced(c, p, v0, p1, v1)
    ensures !more ==> Finished(c, p, v0, p1, v1)
  {
    if p + 1 == |c| {
      BackslashAtEnd(c, p, v0);
    } else if c[p + 1] == '\n' {
      JoinedLines(c, p, v0);
    } else {
      KeptEscape(c, p, v0);
    }
  }

  /** A backslash before a newline joins the two lines. */
  lemma JoinedLines(c: seq<Byte>, p: nat, v: seq<Byte>)
    requires p + 1 < |c| && c[p] == '\\' && c[p + 1] == '\n'
    ensures Advanced(c, p, v, p + 2, v)
  {
    assert c[p..][2..] == c[p + 2..];
  }

  /** Any other backslash stays, with the byte after it. */
  lemma KeptEscape(c: seq<Byte>, p: nat, v: seq<Byte>)
    requires p + 1 < |c| && c[p] == '\\' && c[p + 1] != '\n'
    ensures Advanced(c, p, v, p + 2, v + ['\\', c[p + 1]])
  {
    assert c[p..][2..] == c[p + 2..];
  }

  /** A backslash that ends the text stays, and the value ends. */
  lemma BackslashAtEnd(c: seq<Byte>, p: nat, v: seq<Byte>)
    requires p + 1 == |c| && c[p] == '\\'
    ensures Finished(c, p, v, p + 1, v + ['\\'])
  {
    assert c[p..] == ['\\'];
  }

  /** cf_parse_value: the whitespace, then the value; it always succeeds. */
  method ParseValue(text: Buffer, value: Buffer) returns (ok: bool)
    requires text.Valid() && value.Valid() && value.Contents() == []
    requires text != value && text.buf != value.buf
    modifies text`pos, text.buf, value, value.buf
    ensures text.Valid() && value.Valid() && ok
    ensures value.buf == old(value.buf) || fresh(value.buf)
    ensures ValueRead(old(Rest(text)), value.Contents(), Rest(text))
  {
    ghost var r := Rest(text);
    SkipBlanks(text);
    ghost var r1 := Rest(text);
    ghost var c1, p1 := text.Contents(), text.pos;
    ReadValueBody(text, value);
    assert Rest(text) == c1[p1..][ValueBody(r1).used..];
    BodyAfterBlanks(r, r1);
    return true;
  }

  /** Reading the value body where the blanks end, or at the end of the text
      (where a pushed-back EOF may sit), is reading the value. */
  lemma BodyAfterBlanks(r: seq<Byte>, r1: seq<Byte>)
    requires var s := FirstStop(r, BlankStop);
      || (s < |r| && r1 == r[s..])
      || (s == |r| && (r1 == [] || r1 == [ToByte(EOF)]))
    ensures ValueBody(r1).text == ValueOf(r).text
    ensures r1[ValueBody(r1).used..] == r[ValueOf(r).used..]
  {
  }

  /** The key loop of cf_parse_key_value_pair: reads up to the first `=`,
      newline, bracket or negative byte, keeping the bytes before it in key;
      it reports whether that was `=`. */
  method ReadKey(text: Buffer, key: Buffer) returns (found: bool)
    requires text.Valid() && key.Valid() && key.Contents() == []
    requires text != key && text.buf != key.buf
    modifies text`pos, key, key.buf
    ensures text.Valid() && key.Valid() && text.Contents() == old(text.Contents())
    ensures key.buf == old(key.buf) || fresh(key.buf)
    ensures KeyRead(old(Rest(text)), found, key.Contents(), Rest(text))
  {
    ghost var r := Rest(text);
    var ch := CopyUntil(text, key, KeyStop);
    found := ch == '=' as int;
    ghost var k := FirstStop(r, KeyStop);
    if k < |r| {
      SignedIs(r[k], '=');
    }
  }

  /** cf_parse_key_value_pair: the key up to `=`, right-trimmed, then the
      value; a newline, a bracket or the end of the text first fails. */
  method ParseKeyValuePair(text: Buffer, key: Buffer, value: Buffer) returns (ok: bool)
    requires text.Valid() && key.Valid() && value.Valid()
    requires key.Contents() == [] && value.Contents() == []
    requires text != key && text != value && key != value
    requires text.buf != key.buf && text.buf != value.buf && key.buf != value.buf
    modifies text`pos, text.buf, key, key.buf, value, value.buf
    ensures text.Valid() && key.Valid() && value.Valid()
    ensures value.buf == old(value.buf) || fresh(value.buf)
    ensures PairRead(old(Rest(text)), ok, key.Contents(), value.Contents(), Rest(text))
  {
    ghost var r := Rest(text);
    var found := ReadKey(text, key);
    if !found {
      NoKey(r, key.Contents(), Rest(text), value.Contents());
      return false;
    }
    ghost var k0 := key.Contents();
    key.RTrim();
    ghost var k := key.Contents();
    ghost var r1 := Rest(text);
    ok := ParseValue(text, value);
    assert key.Contents() == k;
    PairFromParts(r, k0, r1, value.Contents(), Rest(text));
  }

  /** What ReadKey leaves: whether the key ended at `=`, the key before it,
      and the text after it. */
  ghost predicate KeyRead(r: seq<Byte>, found: bool, key: seq<Byte>, rest: seq<Byte>) {
    && var j := FirstStop(r, KeyStop);
    && (found <==> j < |r| && r[j] == '=')
    && (found ==> key == r[..j] && rest == r[j + 1..])
  }

  /** What cf_parse_value leaves: the value and the text after it. */
  ghost predicate ValueRead(r: seq<Byte>, value: seq<Byte>, rest: seq<Byte>) {
    && var v := ValueOf(r);
    && value == v.text && rest == r[v.used..]
  }

  /** What cf_parse_key_value_pair leaves, as KeyValueAt says. */
  ghost predicate PairRead(r: seq<Byte>, ok: bool, key: seq<Byte>, value: seq<Byte>, rest: seq<Byte>) {
    && var kv := KeyValueAt(r);
    && (ok <==> kv.Some?)
    && (ok ==> key == kv.value.key && value == kv.value.value && rest == r[kv.value.used..])
  }

  lemma NoKey(r: seq<Byte>, key: seq<Byte>, rest: seq<Byte>, value: seq<Byte>)
    requires KeyRead(r, false, key, rest)
    ensures PairRead(r, false, key, value, rest)
  {
  }

  /** A key ended by `=`, then a value, make a pair. */
  lemma PairFromParts(r: seq<Byte>, k0: seq<Byte>, r1: seq<Byte>, value: seq<Byte>, rest: seq<Byte>)
    requires KeyRead(r, true, k0, r1) && ValueRead(r1, value, rest)
    ensures PairRead(r, true, RTrimmed(k0), value, rest)
  {
    var j := FirstStop(r, KeyStop);
    var v := ValueOf(r1);
    assert r1[v.used..] == r[j + 1 + v.used..];
  }

  /** A section whose name, keys and values are C strings. */
  ghost predicate IsC(s: Section) {
    && NoNul(s.name)
    && forall i | 0 <= i < |s.entries| :: NoNul(s.entries[i].key) && NoNul(s.entries[i].value)
  }

  /** A value holds only bytes of the text and backslashes. */
  lemma {:induction false} ValueBodyIsC(r: seq<Byte>)
    requires NoNul(r)
    ensures NoNul(ValueBody(r).text)
    decreases |r|
  {
    if r != [] && !Ends(r[0]) && r[0] != '\n' {
      if r[0] == '\\' {
        if |r| > 1 {
          ValueBodyIsC(r[2..]);
        }
      } else {
        ValueBodyIsC(r[1..]);
      }
    }
  }

  lemma NoNulPrefix(s: seq<Byte>, t: seq<Byte>)
    requires NoNul(s) && |t| <= |s| && t == s[..|t|]
    ensures NoNul(t)
  {
    assert forall i | 0 <= i < |t| :: t[i] == s[i];
  }

  /** The pair read from a C string is made of C strings. */
  lemma EntryIsC(r: seq<Byte>)
    requires NoNul(r) && KeyValueAt(r).Some?
    ensures var e := EntryOf(KeyValueAt(r).value); NoNul(e.key) && NoNul(e.value)
  {
    var j := FirstStop(r, KeyStop);
    NoNulPrefix(r, r[..j]);
    RTrimmedDropsSpaces(r[..j]);
    NoNulPrefix(r[..j], RTrimmed(r[..j]));
    var t := r[j + 1..];
    var b := FirstStop(t, BlankStop);
    assert forall i | 0 <= i < |t[b..]| :: t[b..][i] == r[j + 1 + b + i];
    ValueBodyIsC(t[b..]);
    var v := ValueBody(t[b..]).text;
    RTrimmedDropsSpaces(v);
    NoNulPrefix(v, RTrimmed(v));
  }

  /** What a parse of a C string appends is made of C strings. */
  lemma {:induction false} ParsedAreC(r: seq<Byte>, sec: Option<Section>, comment: bool)
    requires NoNul(r) && (sec.Some? ==> IsC(sec.value))
    ensures forall i | 0 <= i < |ParseFrom(r, sec, comment).sections| :: IsC(ParseFrom(r, sec, comment).sections[i])
    decreases |r|
  {
    NextIsC(r, sec, comment);
    match Next(r, sec, comment)
    case Stop(p) =>
    case Go(closed, used, s, c) =>
      ParsedAreC(r[used..], s, c);
      AppendedAreC(closed, ParseFrom(r[used..], s, c).sections);
  }

  lemma AppendedAreC(a: seq<Section>, b: seq<Section>)
    requires forall i | 0 <= i < |a| :: IsC(a[i])
    requires forall i | 0 <= i < |b| :: IsC(b[i])
    ensures forall i | 0 <= i < |a + b| :: IsC((a + b)[i])
  {
    forall i | 0 <= i < |a + b| ensures IsC((a + b)[i]) {
      if i >= |a| {
        assert (a + b)[i] == b[i - |a|];
      }
    }
  }

  /** One round on a C string closes C strings and keeps the section being
      filled and the rest of the text C strings. */
  lemma NextIsC(r: seq<Byte>, sec: Option<Section>, comment: bool)
    requires NoNul(r) && (sec.Some? ==> IsC(sec.value))
    ensures match Next(r, sec, comment)
      case Stop(p) => forall i | 0 <= i < |p.sections| :: IsC(p.sections[i])
      case Go(closed, used, s, _) =>
        && (forall i | 0 <= i < |closed| :: IsC(closed[i]))
        && (s.Some? ==> IsC(s.value))
        && NoNul(r[used..])
  {
    match Next(r, sec, comment)
    case Stop(_) =>
    case Go(_, used, _, _) =>
      assert NoNul(r[used..]) by {
        assert forall i | 0 <= i < |r| - used :: r[used..][i] == r[used + i];
      }
      if r[0] == '\n' || comment || IsSpaceByte(r[0]) || r[0] == ';' || r[0] == '#' {
      } else if r[0] == '[' {
        var h := HeaderAt(r[1..]);
        assert NoNul(r[1..]) by {
          assert forall i | 0 <= i < |r| - 1 :: r[1..][i] == r[1 + i];
        }
        NoNulPrefix(r[1..], h.value.text);
      } else {
        var kv := KeyValueAt(r);
        EntryIsC(r);
        var e := EntryOf(kv.value);
        if sec.Some? {
          var es := sec.value.entries + [e];
          assert forall i | 0 <= i < |es| :: es[i] == if i < |sec.value.entries| then sec.value.entries[i] else e;
        }
      }
  }

  /** How one round of the loop of cf_parse_text ends. */
  datatype Status = More | AtEnd | Failed

  /** The configuration: the sections parsed so far, in order. */
  class Config {
    var sections: seq<Section>

    /** Every name, key and value the configuration holds is a C string. */
    ghost predicate Valid()
      reads this
    {
      forall i | 0 <= i < |sections| :: IsC(sections[i])
    }

    /** cf_new: no sections. */
    constructor New()
      ensures Valid() && sections == []
    {
      sections := [];
    }

    /** cf_add_from_string: the string is copied into a buffer and parsed;
        what the parse reads is appended, even when it then fails. */
    method AddFromString(str: CStr) returns (ok: bool)
      requires Valid()
      modifies this
      ensures Valid()
      ensures sections == old(sections) + Parse(str).sections
      ensures ok == Parse(str).ok
    {
      var text := new Buffer.Init(0);
      text.AddStr(str);
      assert text.Contents() == str;
      ok := ParseText(text);
      text.Release();
    }

    /** cf_parse_text: the sections of the unread text are appended. */
    method ParseText(text: Buffer) returns (ok: bool)
      requires Valid() && text.Valid() && NoNul(Rest(text))
      modifies this, text`pos, text.buf
      ensures Valid() && text.Valid()
      ensures var p := ParseFrom(old(Rest(text)), None, false);
        sections == old(sections) + p.sections && ok == p.ok
    {
      ghost var target := ParseFrom(Rest(text), None, false);
      ParsedAreC(Rest(text), None, false);
      var sec: Option<Section> := None;
      var comment := false;
      while true
        invariant text.Valid()
        invariant Prepend(sections, ParseFrom(Rest(text), sec, comment))
          == Prepend(old(sections), target)
        decreases |Rest(text)|
      {
        var st;
        sec, comment, st := Round(text, sec, comment);
        if st == AtEnd {
          break;
        }
        if st == Failed {
          return false;
        }
      }
      sections := sections + Flush(sec);
      ok := true;
    }

    /**
     * One round of the loop of cf_parse_text: a byte is read and acted on.
     * The sections appended and the parse still ahead together give what
     * the parse from before the round gives.
     */
    method Round(text: Buffer, sec: Option<Section>, comment: bool)
      returns (sec': Option<Section>, comment': bool, st: Status)
      requires text.Valid()
      modifies this, text`pos, text.buf
      ensures text.Valid()
      ensures var p := ParseFrom(old(Rest(text)), sec, comment);
        && (st == More ==>
              && |Rest(text)| < old(|Rest(text)|)
              && Prepend(sections, ParseFrom(Rest(text), sec', comment')) == Prepend(old(sections), p))
        && (st == AtEnd ==> sections == old(sections) && p == Parsed(Flush(sec), true) && sec' == sec)
        && (st == Failed ==> sections == old(sections) + p.sections && !p.ok)
    {
      ghost var r := Rest(text);
      ghost var c := text.Contents();
      ghost var p0 := text.pos;
      sec', comment' := sec, comment;
      var ch := text.FGetC();
      assert r != [] ==> r[0] == c[p0] && ch == Signed(r[0]);
      if ch < 0 {
        return sec, comment, AtEnd;
      }
      assert r[1..] == Rest(text);
      if ch == '\n' as int || comment || IsSpace(ch) || ch == ';' as int || ch == '#' as int {
        comment' := ch != '\n' as int && (comment || ch == ';' as int || ch == '#' as int);
        SkipRound(r, sec, comment, comment');
        return sec, comment', More;
      }
      if ch == '[' as int {
        sec', st := HeaderStep(text, sec, r);
        return;
      }
      if ch == '=' as int {
        return sec, comment, Failed;
      }
      assert text.Contents()[text.pos - 1..] == r;
      sec', st := EntryStep(text, sec, comment, r);
      comment' := false;
    }

    /** The round at `[`, once the byte has been read. */
    method HeaderStep(text: Buffer, sec: Option<Section>, ghost r: seq<Byte>)
      returns (sec': Option<Section>, st: Status)
      requires text.Valid() && r != [] && r[0] == '[' && r[1..] == Rest(text)
      modifies this, text`pos
      ensures text.Valid() && st != AtEnd
      ensures var p := ParseFrom(r, sec, false);
        && (st == More ==>
              && |Rest(text)| < |r|
              && Prepend(sections, ParseFrom(Rest(text), sec', false)) == Prepend(old(sections), p))
        && (st == Failed ==> sections == old(sections) + p.sections && !p.ok)
    {
      ghost var s0, c, p0 := sections, text.Contents(), text.pos;
      sec', st := Header(text, sec);
      if st == More {
        SuffixShift(c, p0, r, HeaderAt(r[1..]).value.used);
      }
      HeaderLaw(s0, sec, r, sec', st == More, Rest(text));
    }

    /** The `[` branch of cf_parse_text: the section being filled is
        appended, then the new one is named. */
    method Header(text: Buffer, sec: Option<Section>) returns (sec': Option<Section>, st: Status)
      requires text.Valid()
      modifies this, text`pos
      ensures text.Valid() && text.Contents() == old(text.Contents())
      ensures sections == old(sections) + Flush(sec) && st != AtEnd
      ensures var h := HeaderAt(old(Rest(text)));
        && (st == Failed <==> h.None?)
        && (st == More ==>
              sec' == Some(Section(h.value.text, [])) && text.pos == old(text.pos) + h.value.used)
    {
      var name := new Buffer.Init(0);
      sections := sections + Flush(sec);
      var ok := ParseSectionName(text, name);
      if !ok {
        return None, Failed;
      }
      sec' := Some(Section(name.Contents(), []));
      name.Release();
      st := More;
    }
  }

  /** The rounds of cf_parse_text that skip a byte: a newline ends a
      comment, `;` and `#` start one, and whitespace and commented bytes
      are passed over. */
  lemma SkipRound(r: seq<Byte>, sec: Option<Section>, comment: bool, comment': bool)
    requires r != [] && !Ends(r[0])
    requires r[0] == '\n' || comment || IsSpaceByte(r[0]) || r[0] == ';' || r[0] == '#'
    requires comment' == (r[0] != '\n' && (comment || r[0] == ';' || r[0] == '#'))
    ensures ParseFrom(r, sec, comment) == ParseFrom(r[1..], sec, comment')
  {
  }

  /** The round at `[`: the section being filled is appended whether or not
      the header that follows is well formed. */
  lemma HeaderRound(r: seq<Byte>, sec: Option<Section>, comment: bool)
    requires r != [] && r[0] == '[' && !comment
    ensures var h := HeaderAt(r[1..]);
      && (h.None? ==> ParseFrom(r, sec, comment) == Parsed(Flush(sec), false))
      && (h.Some? ==>
            ParseFrom(r, sec, comment)
            == Prepend(Flush(sec), ParseFrom(r[1 + h.value.used..], Some(Section(h.value.text, [])), false)))
  {
  }

  lemma PrependTwice(a: seq<Section>, b: seq<Section>, p: Parsed)
    ensures Prepend(a + b, p) == Prepend(a, Prepend(b, p))
  {
    assert (a + b) + p.sections == a + (b + p.sections);
  }

  /** The round at any other byte: a pair, whose entry goes to the current
      section; a pair that does not end well ends the parse. */
  lemma EntryRound(r: seq<Byte>, sec: Option<Section>, comment: bool)
    requires r != [] && !Ends(r[0]) && !comment && !IsSpaceByte(r[0])
    requires r[0] != '\n' && r[0] != ';' && r[0] != '#' && r[0] != '[' && r[0] != '='
    ensures var kv := KeyValueAt(r);
      && (kv.None? ==> ParseFrom(r, sec, comment) == Parsed([], false))
      && (kv.Some? ==>
            && kv.value.used >= 2
            && ParseFrom(r, sec, comment) == ParseFrom(r[kv.value.used..], AddEntry(sec, EntryOf(kv.value)), false))
  {
  }

  /** The round at `[` from the header read: the sections appended and the
      parse ahead give the parse of r. */
  lemma HeaderLaw(s0: seq<Section>, sec: Option<Section>, r: seq<Byte>,
                  sec': Option<Section>, ok: bool, rest: seq<Byte>)
    requires r != [] && r[0] == '['
    requires var h := HeaderAt(r[1..]);
      && (ok <==> h.Some?)
      && (ok ==> sec' == Some(Section(h.value.text, [])) && rest == r[1 + h.value.used..])
    ensures var q := ParseFrom(r, sec, false);
      && (ok ==> |rest| < |r| && Prepend(s0 + Flush(sec), ParseFrom(rest, sec', false)) == Prepend(s0, q))
      && (!ok ==> s0 + Flush(sec) == s0 + q.sections && !q.ok)
  {
    HeaderRound(r, sec, false);
    if ok {
      PrependTwice(s0, Flush(sec), ParseFrom(rest, sec', false));
    }
  }

  /** Skipping u more bytes of a text read from position p, one byte after
      the start of r. */
  lemma SuffixShift(c: seq<Byte>, p: nat, r: seq<Byte>, u: nat)
    requires p <= |c| && r != [] && r[1..] == c[p..] && p + u <= |c|
    ensures c[p + u..] == r[1 + u..]
  {
    assert c[p..][u..] == c[p + u..];
  }

  /** The round at any other byte, once it has been read. */
  method EntryStep(text: Buffer, sec: Option<Section>, comment: bool, ghost r: seq<Byte>)
    returns (sec': Option<Section>, st: Status)
    requires text.Valid() && 0 < text.pos && r == text.Contents()[text.pos - 1..]
    requires r != [] && !Ends(r[0]) && !comment && !IsSpaceByte(r[0])
    requires r[0] != '\n' && r[0] != ';' && r[0] != '#' && r[0] != '[' && r[0] != '='
    modifies text`pos, text.buf
    ensures text.Valid() && st != AtEnd
    ensures st == More ==>
      |Rest(text)| < |r| && ParseFrom(Rest(text), sec', false) == ParseFrom(r, sec, comment)
    ensures st == Failed ==> ParseFrom(r, sec, comment) == Parsed([], false)
  {
    EntryRound(r, sec, comment);
    var ok;
    sec', ok := AddEntryFrom(text, sec);
    st := if ok then More else Failed;
  }

  /** The entry branch of cf_parse_text: the byte just read is pushed back,
      then the pair is read and its entry goes to the current section. */
  method AddEntryFrom(text: Buffer, sec: Option<Section>) returns (sec': Option<Section>, ok: bool)
    requires text.Valid() && 0 < text.pos
    modifies text`pos, text.buf
    ensures text.Valid()
    ensures var r := old(text.Contents())[old(text.pos) - 1..]; var kv := KeyValueAt(r);
      && (ok <==> kv.Some?)
      && (ok ==> && sec' == AddEntry(sec, EntryOf(kv.value))
                 && Rest(text) == r[kv.value.used..])
  {
    ghost var c, p := text.Contents(), text.pos;
    ghost var r := c[p - 1..];
    var ch := Signed(text.buf[text.pos - 1]);
    var _ := text.UngetC(ch);
    assert text.Contents() == c;
    assert Rest(text) == r;
    var e;
    e, ok := ReadEntry(text);
    if ok {
      sec' := AddEntry(sec, e);
    } else {
      sec' := sec;
    }
  }

  /** cf_parse_key_value_pair into fresh buffers, then the value's trailing
      whitespace removed. */
  method ReadEntry(text: Buffer) returns (e: Entry, ok: bool)
    requires text.Valid()
    modifies text`pos, text.buf
    ensures text.Valid()
    ensures var r := old(Rest(text)); var kv := KeyValueAt(r);
      && (ok <==> kv.Some?)
      && (ok ==> e == EntryOf(kv.value) && Rest(text) == r[kv.value.used..])
  {
    var key, value;
    ok, key, value := ReadPair(text);
    if !ok {
      return Entry([], []), false;
    }
    ghost var rest := Rest(text);
    e := TrimmedEntry(key, value, KeyValueAt(old(Rest(text))).value);
    assert Rest(text) == rest;
  }

  /** cf_parse_key_value_pair into two fresh buffers. */
  method ReadPair(text: Buffer) returns (ok: bool, key: seq<Byte>, value: Buffer)
    requires text.Valid()
    modifies text`pos, text.buf
    ensures text.Valid() && value.Valid() && fresh(value) && fresh(value.buf)
    ensures PairRead(old(Rest(text)), ok, key, value.Contents(), Rest(text))
  {
    var k := new Buffer.Init(0);
    value := new Buffer.Init(0);
    ok := ParseKeyValuePair(text, k, value);
    key := k.Contents();
  }

  method TrimmedEntry(key: seq<Byte>, value: Buffer, ghost kv: KeyValue) returns (e: Entry)
    requires value.Valid() && key == kv.key && value.Contents() == kv.value
    modifies value, value.buf
    ensures e == EntryOf(kv)
  {
    value.RTrim();
    assert value.Contents() == EntryOf(kv).value;
    e := Entry(key, value.Contents());
  }
}
