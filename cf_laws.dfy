/**
 * What the configuration parser promises about whole texts: a configuration
 * written out in the plain INI form parses back to itself; the sections
 * read before an error stay; entries before the first header are dropped;
 * comment lines and blank space are passed over. And the one place where
 * cf_parse_value as written stores a byte the text does not hold.
 */
module ConfigLaws {
  import opened Wrappers
  import opened Bytes
  import opened Buffers
  import opened Configs

  /* ---- The plain form of a configuration ---- */

  function HeaderLine(name: seq<Byte>): seq<Byte> {
    ['['] + name + [']', '\n']
  }

  function EntryLine(e: Entry): seq<Byte> {
    e.key + ['='] + e.value + ['\n']
  }

  function RenderEntries(es: seq<Entry>): seq<Byte> {
    if es == [] then [] else EntryLine(es[0]) + RenderEntries(es[1..])
  }

  function RenderSection(s: Section): seq<Byte> {
    HeaderLine(s.name) + RenderEntries(s.entries)
  }

  function Render(secs: seq<Section>): seq<Byte> {
    if secs == [] then [] else RenderSection(secs[0]) + Render(secs[1..])
  }

  /** A byte a value can hold without escaping. */
  predicate ValueByte(b: Byte) {
    !Ends(b) && b != '\n' && b != '\\'
  }

  /** A value that reads back as itself: no newline, no backslash, no byte
      that reads as negative, and no whitespace at either end. */
  predicate ValueOk(v: seq<Byte>) {
    && (forall i | 0 <= i < |v| :: ValueByte(v[i]))
    && (v != [] ==> !IsSpaceByte(v[0]) && !IsSpaceByte(v[|v| - 1]))
  }

  predicate EntryOk(e: Entry) {
    KeyOk(e.key) && ValueOk(e.value)
  }

  predicate SectionOk(s: Section) {
    NameOk(s.name) && forall i | 0 <= i < |s.entries| :: EntryOk(s.entries[i])
  }

  predicate ConfigOk(secs: seq<Section>) {
    forall i | 0 <= i < |secs| :: SectionOk(secs[i])
  }

  /* ---- One line at a time ---- */

  lemma FirstStopAfter(a: seq<Byte>, b: seq<Byte>, stop: Byte -> bool)
    requires forall i | 0 <= i < |a| :: !stop(a[i])
    requires b != [] && stop(b[0])
    ensures FirstStop(a + b, stop) == |a|
  {
    FirstStopAt(a + b, stop, |a|);
  }

  /** A plain value runs to the newline, which it uses up. */
  lemma {:induction false} PlainValueBody(v: seq<Byte>, rest: seq<Byte>)
    requires forall i | 0 <= i < |v| :: ValueByte(v[i])
    ensures ValueBody(v + ['\n'] + rest) == Scanned(v, |v| + 1)
  {
    if v != [] {
      assert (v + ['\n'] + rest)[1..] == v[1..] + ['\n'] + rest;
      PlainValueBody(v[1..], rest);
      assert [v[0]] + v[1..] == v;
    }
  }

  /** The round at a header line: the name is read up to the `]`. */
  lemma NextHeaderLine(n: seq<Byte>, rest: seq<Byte>, sec: Option<Section>)
    requires NameOk(n)
    ensures Next(HeaderLine(n) + rest, sec, false)
      == Go(Flush(sec), |n| + 2, Some(Section(n, [])), false)
  {
    var r := HeaderLine(n) + rest;
    var after := ['\n'] + rest;
    assert r[0] == '[' && r[1..] == n + ([']'] + after);
    FirstStopAfter(n, [']'] + after, NameStop);
    assert r[1..][..|n|] == n;
  }

  /** A header line names the next section and closes the current one. */
  lemma HeaderParsed(n: seq<Byte>, rest: seq<Byte>, sec: Option<Section>)
    requires NameOk(n)
    ensures ParseFrom(HeaderLine(n) + rest, sec, false)
      == Prepend(Flush(sec), ParseFrom(rest, Some(Section(n, [])), false))
  {
    var r := HeaderLine(n) + rest;
    var after := ['\n'] + rest;
    NextHeaderLine(n, rest, sec);
    assert r[|n| + 2..] == after;
    SkipParsed('\n', rest, Some(Section(n, [])), false);
  }

  /** A byte that is passed over: the comment flag is all it changes. */
  lemma SkipParsed(b: Byte, rest: seq<Byte>, sec: Option<Section>, comment: bool)
    requires !Ends(b) && (b == '\n' || comment || IsSpaceByte(b) || b == ';' || b == '#')
    ensures ParseFrom([b] + rest, sec, comment)
      == ParseFrom(rest, sec, b != '\n' && (comment || b == ';' || b == '#'))
  {
    assert ([b] + rest)[1..] == rest;
  }

  /** The key of an entry line runs up to its `=`. */
  lemma KeyOfLine(e: Entry, rest: seq<Byte>)
    requires EntryOk(e)
    ensures var r := EntryLine(e) + rest;
      && FirstStop(r, KeyStop) == |e.key| && r[|e.key|] == '=' && r[..|e.key|] == e.key
      && r[|e.key| + 1..] == e.value + ['\n'] + rest
  {
    var tail := ['='] + (e.value + ['\n'] + rest);
    ConcatShape(e.key, e.value, rest);
    FirstStopAfter(e.key, tail, KeyStop);
    ConcatCut(e.key, tail);
  }

  lemma ConcatShape(k: seq<Byte>, v: seq<Byte>, rest: seq<Byte>)
    ensures k + ['='] + v + ['\n'] + rest == k + (['='] + (v + ['\n'] + rest))
  {
  }

  lemma ConcatCut(a: seq<Byte>, b: seq<Byte>)
    requires b != []
    ensures (a + b)[|a|] == b[0] && (a + b)[..|a|] == a && (a + b)[|a| + 1..] == b[1..]
  {
  }

  /** The value of an entry line runs up to the newline, which it uses. */
  lemma ValueOfLine(v: seq<Byte>, rest: seq<Byte>)
    requires ValueOk(v)
    ensures ValueOf(v + ['\n'] + rest) == Scanned(v, |v| + 1)
  {
    var tail := v + ['\n'] + rest;
    assert tail[0] == (if v == [] then '\n' else v[0]);
    FirstStopAt(tail, BlankStop, 0);
    PlainValueBody(v, rest);
  }

  /** The round at an entry line: the whole line is read as one pair. */
  lemma NextEntryLine(e: Entry, rest: seq<Byte>, sec: Option<Section>)
    requires EntryOk(e)
    ensures Next(EntryLine(e) + rest, sec, false) == Go([], |EntryLine(e)|, AddEntry(sec, e), false)
  {
    var r := EntryLine(e) + rest;
    KeyOfLine(e, rest);
    ValueOfLine(e.value, rest);
    assert KeyValueAt(r) == Some(KeyValue(e.key, e.value, |EntryLine(e)|));
    assert r[0] == e.key[0];
  }

  /** An entry line goes to the current section, and nowhere when there is
      none. */
  lemma EntryParsed(e: Entry, rest: seq<Byte>, sec: Option<Section>)
    requires EntryOk(e)
    ensures ParseFrom(EntryLine(e) + rest, sec, false) == ParseFrom(rest, AddEntry(sec, e), false)
  {
    NextEntryLine(e, rest, sec);
    assert (EntryLine(e) + rest)[|EntryLine(e)|..] == rest;
  }

  /** The section being filled once the given entries have gone to it. */
  function AddEntries(sec: Option<Section>, es: seq<Entry>): Option<Section>
    decreases |es|
  {
    if es == [] then sec else AddEntries(AddEntry(sec, es[0]), es[1..])
  }

  lemma {:induction false} AddEntriesTo(n: seq<Byte>, done: seq<Entry>, es: seq<Entry>)
    ensures AddEntries(Some(Section(n, done)), es) == Some(Section(n, done + es))
    decreases |es|
  {
    if es == [] {
      assert done + es == done;
    } else {
      AddEntriesTo(n, done + [es[0]], es[1..]);
      assert done + [es[0]] + es[1..] == done + es;
    }
  }

  /** A run of entry lines goes, entry by entry, to the current section. */
  lemma {:induction false} EntriesParsed(es: seq<Entry>, rest: seq<Byte>, sec: Option<Section>)
    requires forall i | 0 <= i < |es| :: EntryOk(es[i])
    ensures ParseFrom(RenderEntries(es) + rest, sec, false) == ParseFrom(rest, AddEntries(sec, es), false)
  {
    if es == [] {
      assert RenderEntries(es) + rest == rest;
    } else {
      var e, tail := es[0], RenderEntries(es[1..]) + rest;
      assert RenderEntries(es) + rest == EntryLine(e) + tail;
      EntryParsed(e, tail, sec);
      assert forall i | 0 <= i < |es| - 1 :: es[1..][i] == es[i + 1];
      EntriesParsed(es[1..], rest, AddEntry(sec, e));
    }
  }

  /* ---- Whole texts ---- */

  /** The sections closed once the given ones have been read after sec. */
  function Closed(sec: Option<Section>, secs: seq<Section>): seq<Section> {
    if secs == [] then [] else Flush(sec) + secs[..|secs| - 1]
  }

  /** The section still being filled once the given ones have been read. */
  function Pending(sec: Option<Section>, secs: seq<Section>): Option<Section> {
    if secs == [] then sec else Some(secs[|secs| - 1])
  }

  /** Reading the plain form of some sections closes every one but the
      last, which is still being filled when the text after them starts. */
  lemma {:induction false} RenderThen(secs: seq<Section>, rest: seq<Byte>, sec: Option<Section>)
    requires ConfigOk(secs)
    ensures ParseFrom(Render(secs) + rest, sec, false)
      == Prepend(Closed(sec, secs), ParseFrom(rest, Pending(sec, secs), false))
  {
    if secs == [] {
      assert Render(secs) + rest == rest;
    }
    if secs != [] {
      var s, t := secs[0], secs[1..];
      assert SectionOk(s) && ConfigOk(t) by {
        assert forall i | 0 <= i < |t| :: t[i] == secs[i + 1];
      }
      var mid := Render(t) + rest;
      var p := ParseFrom(rest, Pending(Some(s), t), false);
      assert Render(secs) + rest == RenderSection(s) + mid;
      SectionParsed(s, mid, sec);
      RenderThen(t, rest, Some(s));
      PrependTwice(Flush(sec), Closed(Some(s), t), p);
      ClosedCons(sec, secs);
    }
  }

  /** A section in the plain form closes the current one and is the one
      being filled once its last entry is read. */
  lemma SectionParsed(s: Section, rest: seq<Byte>, sec: Option<Section>)
    requires SectionOk(s)
    ensures ParseFrom(RenderSection(s) + rest, sec, false)
      == Prepend(Flush(sec), ParseFrom(rest, Some(s), false))
  {
    var mid := RenderEntries(s.entries) + rest;
    assert RenderSection(s) + rest == HeaderLine(s.name) + mid;
    HeaderParsed(s.name, mid, sec);
    EntriesParsed(s.entries, rest, Some(Section(s.name, [])));
    AddEntriesTo(s.name, [], s.entries);
    assert Section(s.name, [] + s.entries) == s;
  }

  lemma ClosedCons(sec: Option<Section>, secs: seq<Section>)
    requires secs != []
    ensures Flush(sec) + Closed(Some(secs[0]), secs[1..]) == Closed(sec, secs)
    ensures Pending(Some(secs[0]), secs[1..]) == Pending(sec, secs)
  {
    var t := secs[1..];
    if t != [] {
      assert secs[..|secs| - 1] == [secs[0]] + t[..|t| - 1];
    }
  }

  /** A configuration written in the plain form parses to itself, and the
      parse succeeds. */
  lemma ParseRender(secs: seq<Section>)
    requires ConfigOk(secs)
    ensures Parse(Render(secs)) == Parsed(secs, true)
  {
    RenderThen(secs, [], None);
    assert Render(secs) + [] == Render(secs);
    ClosedPendingAll(secs);
  }

  /** Once the text is over, the sections closed and the one pending are all
      the sections read. */
  lemma ClosedPendingAll(secs: seq<Section>)
    ensures Closed(None, secs) + Flush(Pending(None, secs)) == secs
  {
    if secs != [] {
      assert secs[..|secs| - 1] + [secs[|secs| - 1]] == secs;
    }
  }

  /** A failing parse keeps what it read: after a text whose last header is
      cut short, every section before the cut, the last included, is
      there, and the parse reports failure. */
  lemma NoRollback(secs: seq<Section>, n: seq<Byte>)
    requires ConfigOk(secs) && NameOk(n)
    ensures Parse(Render(secs) + ['['] + n) == Parsed(secs, false)
  {
    var r: seq<Byte> := ['['] + n;
    assert Render(secs) + ['['] + n == Render(secs) + r;
    RenderThen(secs, r, None);
    CutHeader(n, Pending(None, secs));
    ClosedPendingAll(secs);
  }

  /** A header cut short by the end of the text: the section being filled
      is appended and the parse fails. */
  lemma CutHeader(n: seq<Byte>, sec: Option<Section>)
    requires NameOk(n)
    ensures ParseFrom(['['] + n, sec, false) == Parsed(Flush(sec), false)
  {
    var r: seq<Byte> := ['['] + n;
    assert r[0] == '[' && r[1..] == n;
    FirstStopAt(n, NameStop, |n|);
  }

  /** Entries before the first header belong to no section and are
      dropped. */
  lemma OrphanEntryDropped(e: Entry, text: seq<Byte>)
    requires EntryOk(e)
    ensures Parse(EntryLine(e) + text) == Parse(text)
  {
    EntryParsed(e, text, None);
  }

  /** Inside a comment everything up to the newline is passed over, and
      the newline ends the comment. */
  lemma {:induction false} CommentEnds(c: seq<Byte>, rest: seq<Byte>, sec: Option<Section>)
    requires forall i | 0 <= i < |c| :: !Ends(c[i]) && c[i] != '\n'
    ensures ParseFrom(c + ['\n'] + rest, sec, true) == ParseFrom(rest, sec, false)
  {
    var r := c + ['\n'] + rest;
    if c == [] {
      assert r[1..] == rest;
    } else {
      assert r[1..] == c[1..] + ['\n'] + rest;
      CommentEnds(c[1..], rest, sec);
    }
  }

  /** A comment line, started by `;` or `#`, changes nothing. */
  lemma CommentLine(mark: Byte, c: seq<Byte>, rest: seq<Byte>, sec: Option<Section>)
    requires mark == ';' || mark == '#'
    requires forall i | 0 <= i < |c| :: !Ends(c[i]) && c[i] != '\n'
    ensures ParseFrom([mark] + c + ['\n'] + rest, sec, false) == ParseFrom(rest, sec, false)
  {
    var r := [mark] + c + ['\n'] + rest;
    assert r[1..] == c + ['\n'] + rest;
    CommentEnds(c, rest, sec);
  }

  /** Whitespace, newlines included, is passed over between lines. */
  lemma {:induction false} BlanksSkipped(w: seq<Byte>, rest: seq<Byte>, sec: Option<Section>)
    requires forall i | 0 <= i < |w| :: IsSpaceByte(w[i])
    ensures ParseFrom(w + rest, sec, false) == ParseFrom(rest, sec, false)
  {
    if w != [] {
      assert w + rest == [w[0]] + (w[1..] + rest);
      assert !Ends(w[0]);
      SkipParsed(w[0], w[1..] + rest, sec, false);
      BlanksSkipped(w[1..], rest, sec);
    } else {
      assert w + rest == rest;
    }
  }

  /* ---- The backslash that ends the text ---- */

  /**
   * cf_parse_value as written and as intended read the same bytes and
   * keep the same value, except that for a backslash ending the text the
   * code as written adds the byte 0xFF after it.
   */
  lemma {:induction false} AsWrittenAddsByte(r: seq<Byte>)
    ensures ValueBodyAsWritten(r).used == ValueBody(r).used
    ensures || ValueBodyAsWritten(r).text == ValueBody(r).text
            || ValueBodyAsWritten(r).text == ValueBody(r).text + [ToByte(EOF)]
    ensures ValueBodyAsWritten(r).text != ValueBody(r).text ==>
      && ValueBody(r).used == |r| > 0 && r[|r| - 1] == '\\'
      && ValueBodyAsWritten(r).text == ValueBody(r).text + [ToByte(EOF)]
    decreases |r|
  {
    if r != [] && !Ends(r[0]) && r[0] != '\n' {
      if r[0] == '\\' {
        if |r| > 1 {
          AsWrittenAddsByte(r[2..]);
        }
      } else {
        AsWrittenAddsByte(r[1..]);
      }
    }
  }

  /** On `k = a\` at the end of the text, the code as written stores
      `a\` followed by 0xFF; the intended value is `a\`. */
  lemma TrailingBackslash()
    ensures ValueBodyAsWritten(['a', '\\']) == Scanned(['a', '\\', 0xFF as char], 2)
    ensures ValueBody(['a', '\\']) == Scanned(['a', '\\'], 2)
  {
    var r: seq<Byte> := ['a', '\\'];
    assert r[1..] == ['\\'];
  }
}
