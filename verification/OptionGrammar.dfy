/**
 The JSON grammar of the table options, written out as text with every blank and escape shown, and
 the proof that the reader accepts exactly the texts of that grammar and reads what they spell.
 */
module OptionGrammar {
  import opened Optional
  import opened TableOptions

  // ---- blanks and escapes -----------------------------------------------------------------

  const BLANKS: set<char> := {0x20 as char, 0x09 as char, 0x0A as char, 0x0D as char}

  /** The character each escape letter stands for. */
  const ESCAPES: map<char, char> := map[
    '"' := 0x22 as char, '\\' := 0x5C as char, '/' := 0x2F as char, 'b' := 0x08 as char,
    'f' := 0x0C as char, 'n' := 0x0A as char, 'r' := 0x0D as char, 't' := 0x09 as char]

  lemma EscapeByCode(c: char)
    ensures Escape(c) == if c in ESCAPES then Some(ESCAPES[c]) else None
  {}

  predicate Blank(s: string) {
    forall i :: 0 <= i < |s| ==> s[i] in BLANKS
  }

  predicate StartsInk(s: string) {
    s == "" || s[0] !in BLANKS
  }

  lemma {:induction false} SkipBlank(b: string, s: string)
    requires Blank(b) && StartsInk(s)
    ensures SkipSpace(b + s) == s
  {
    if b == "" {
      assert b + s == s;
    } else {
      assert (b + s)[1..] == b[1..] + s;
      SkipBlank(b[1..], s);
    }
  }

  lemma {:induction false} SkipsBlank(s: string) returns (b: string)
    ensures Blank(b) && StartsInk(SkipSpace(s)) && s == b + SkipSpace(s)
  {
    if s != "" && IsSpace(s[0]) {
      var c := SkipsBlank(s[1..]);
      b := [s[0]] + c;
      assert s == [s[0]] + s[1..];
    } else {
      b := "";
    }
  }

  // ---- strings ----------------------------------------------------------------------------

  /** Text spelled between quotes: characters as themselves, or escaped. */
  predicate Spells(q: string, text: string) {
    if q == "" || text == "" then q == text
    else if q[0] == '\\' then |q| >= 2 && q[1] in ESCAPES && ESCAPES[q[1]] == text[0] && Spells(q[2..], text[1..])
    else q[0] != '"' && q[0] == text[0] && Spells(q[1..], text[1..])
  }

  lemma {:induction false} SpelledIsRead(q: string, text: string, rest: string)
    requires Spells(q, text)
    ensures StringBody(q + "\"" + rest) == Some((text, rest))
  {
    hide Escape;
    var s := q + "\"" + rest;
    if q == "" {
      assert s[1..] == rest;
    } else if q[0] == '\\' {
      EscapeByCode(q[1]);
      assert s[2..] == q[2..] + "\"" + rest;
      SpelledIsRead(q[2..], text[1..], rest);
      assert [text[0]] + text[1..] == text;
    } else {
      assert s[1..] == q[1..] + "\"" + rest;
      SpelledIsRead(q[1..], text[1..], rest);
      assert [text[0]] + text[1..] == text;
    }
  }

  lemma SpellsEscaped(c: char, q: string, text: string)
    requires Escape(c).Some? && Spells(q, text)
    ensures Spells(['\\', c] + q, [Escape(c).value] + text)
  {
    hide Escape;
    EscapeByCode(c);
    assert (['\\', c] + q)[2..] == q && ([Escape(c).value] + text)[1..] == text;
  }

  lemma SpellsItself(c: char, q: string, text: string)
    requires c != '"' && c != '\\' && Spells(q, text)
    ensures Spells([c] + q, [c] + text)
  {
    assert ([c] + q)[1..] == q && ([c] + text)[1..] == text;
  }

  lemma {:induction false} ReadIsSpelled(s: string) returns (q: string)
    requires StringBody(s).Some?
    ensures Spells(q, StringBody(s).value.0) && s == q + "\"" + StringBody(s).value.1
    decreases |s|
  {
    hide Escape, Spells;
    if s[0] == '"' {
      q := "";
      SpellsNothing();
    } else if s[0] == '\\' {
      var p := ReadIsSpelled(s[2..]);
      SpellsEscaped(s[1], p, StringBody(s[2..]).value.0);
      q := ['\\', s[1]] + p;
      assert s == ['\\', s[1]] + s[2..];
    } else {
      var p := ReadIsSpelled(s[1..]);
      SpellsItself(s[0], p, StringBody(s[1..]).value.0);
      q := [s[0]] + p;
      assert s == [s[0]] + s[1..];
    }
  }

  lemma SpellsNothing()
    ensures Spells("", "")
  {}

  // ---- bare values ------------------------------------------------------------------------

  const BARE_ENDS: set<char> := {',', '}'} + BLANKS

  predicate BareText(s: string) {
    forall i :: 0 <= i < |s| ==> s[i] !in BARE_ENDS && s[i] != '{' && s[i] != '['
  }

  predicate StartsEnd(s: string) {
    s == "" || s[0] in BARE_ENDS
  }

  lemma {:induction false} BareIsMeasured(s: string, rest: string)
    requires BareText(s) && StartsEnd(rest)
    ensures BareLength(s + rest) == Some(|s|)
  {
    if s == "" {
      assert s + rest == rest;
    } else {
      assert (s + rest)[1..] == s[1..] + rest;
      BareIsMeasured(s[1..], rest);
    }
  }

  lemma {:induction false} MeasuredIsBare(s: string)
    requires BareLength(s).Some?
    ensures BareText(s[..BareLength(s).value]) && StartsEnd(s[BareLength(s).value..])
  {
    if s != "" && !EndsBare(s[0]) {
      MeasuredIsBare(s[1..]);
      var n := BareLength(s[1..]).value;
      assert s[..n + 1] == [s[0]] + s[1..][..n] && s[n + 1..] == s[1..][n..];
    }
  }

  // ---- members ----------------------------------------------------------------------------

  datatype Written = Quoted(q: string, text: string) | Unquoted(text: string)

  /** One member as written: blanks, its name between quotes, blanks, a colon, blanks, its value, blanks. */
  datatype Entry =
    Entry(before: string, q: string, name: string, gap: string, lead: string, value: Written, trail: string)

  predicate GoodValue(v: Written) {
    match v
    case Quoted(q, text) => Spells(q, text)
    case Unquoted(text) => text != "" && text[0] != '"' && BareText(text)
  }

  function ValueSpelled(v: Written): string {
    match v
    case Quoted(q, _) => "\"" + q + "\""
    case Unquoted(text) => text
  }

  predicate GoodEntry(e: Entry) {
    && Blank(e.before) && Blank(e.gap) && Blank(e.lead) && Blank(e.trail)
    && Spells(e.q, e.name) && GoodValue(e.value)
  }

  /** The text of a member up to its value. */
  function EntryText(e: Entry): string {
    e.before + ("\"" + e.q + "\"" + (e.gap + (":" + (e.lead + ValueSpelled(e.value)))))
  }

  lemma ValueIsTaken(lead: string, v: Written, rest: string)
    requires Blank(lead) && GoodValue(v) && StartsEnd(rest)
    ensures ReadValue(lead + ValueSpelled(v) + rest) == Some((v.text, rest))
  {
    hide BareLength, StringBody, SkipSpace, Spells;
    var t := ValueSpelled(v) + rest;
    assert lead + ValueSpelled(v) + rest == lead + t;
    SkipBlank(lead, t);
    match v
    case Quoted(q, text) =>
      assert t[1..] == q + "\"" + rest;
      SpelledIsRead(q, text, rest);
    case Unquoted(text) =>
      BareIsMeasured(text, rest);
      assert t[..|text|] == text && t[|text|..] == rest;
  }

  lemma TakenIsValue(s: string) returns (lead: string, v: Written)
    requires ReadValue(s).Some?
    ensures Blank(lead) && GoodValue(v) && v.text == ReadValue(s).value.0
    ensures s == lead + ValueSpelled(v) + ReadValue(s).value.1
  {
    hide BareLength, StringBody, SkipSpace, Spells, Blank, BareText;
    lead := SkipsBlank(s);
    var t := SkipSpace(s);
    var rest := ReadValue(s).value.1;
    if t[0] == '"' {
      var q := ReadIsSpelled(t[1..]);
      v := Quoted(q, ReadValue(s).value.0);
      assert t == ("\"" + q + "\"") + rest;
    } else {
      MeasuredIsBare(t);
      v := Unquoted(ReadValue(s).value.0);
      assert t == v.text + rest;
    }
    assert lead + (ValueSpelled(v) + rest) == lead + ValueSpelled(v) + rest;
  }

  lemma EntryIsRead(e: Entry, rest: string)
    requires GoodEntry(e) && StartsEnd(rest)
    ensures ReadMember(EntryText(e) + rest) == Member(e.name, e.value.text, rest)
  {
    hide StringBody, SkipSpace, Spells, GoodValue, ValueSpelled, ReadValue, Blank;
    var v := e.lead + ValueSpelled(e.value) + rest;
    var u := ":" + v;
    var t := "\"" + e.q + "\"" + (e.gap + u);
    assert EntryText(e) + rest == e.before + t;
    SkipBlank(e.before, t);
    assert t[1..] == e.q + "\"" + (e.gap + u);
    SpelledIsRead(e.q, e.name, e.gap + u);
    SkipBlank(e.gap, u);
    assert u[1..] == v;
    ValueIsTaken(e.lead, e.value, rest);
  }

  lemma MemberIsEntry(s: string) returns (e: Entry)
    requires ReadMember(s).Member?
    ensures GoodEntry(e) && e.trail == "" && s == EntryText(e) + ReadMember(s).rest
    ensures e.name == ReadMember(s).name && e.value.text == ReadMember(s).value
  {
    hide StringBody, SkipSpace, Spells, GoodValue, ValueSpelled, ReadValue;
    var rest := ReadMember(s).rest;
    var before := SkipsBlank(s);
    var t := SkipSpace(s);
    var q := ReadIsSpelled(t[1..]);
    var w := ReadString(t).value.1;
    assert t == "\"" + q + "\"" + w;
    var gap := SkipsBlank(w);
    var u := SkipSpace(w);
    var lead, v := TakenIsValue(u[1..]);
    e := Entry(before, q, ReadMember(s).name, gap, lead, v, "");
    assert u == ":" + (lead + ValueSpelled(v) + rest);
    assert w == gap + (":" + (lead + ValueSpelled(v))) + rest;
    assert t == "\"" + q + "\"" + (gap + (":" + (lead + ValueSpelled(v)))) + rest;
  }

  // ---- objects ----------------------------------------------------------------------------

  predicate GoodEntries(es: seq<Entry>) {
    forall k :: 0 <= k < |es| ==> GoodEntry(es[k])
  }

  /** Members separated by commas, the closing brace, and what is behind it. */
  function EntriesText(es: seq<Entry>, after: string): string
    requires es != []
  {
    EntryText(es[0]) + (es[0].trail + if |es| == 1 then "}" + after else "," + EntriesText(es[1..], after))
  }

  function Spelled(es: seq<Entry>): seq<Pair> {
    seq(|es|, k requires 0 <= k < |es| => Pair(es[k].name, es[k].value.text))
  }

  lemma SpelledCons(es: seq<Entry>)
    requires es != []
    ensures Spelled(es) == [Pair(es[0].name, es[0].value.text)] + Spelled(es[1..])
  {}

  lemma {:induction false} EntriesAreRead(es: seq<Entry>, after: string)
    requires es != [] && GoodEntries(es) && Blank(after)
    ensures Members(EntriesText(es, after)) == Some(Spelled(es))
    decreases |es|
  {
    hide ReadMember, SkipSpace, EntryText, GoodEntry, Blank;
    var last := |es| == 1;
    var t := if last then "}" + after else "," + EntriesText(es[1..], after);
    TrailIsBlank(es[0]);
    TrailEnds(es[0].trail, t);
    EntryIsRead(es[0], es[0].trail + t);
    SkipBlank(es[0].trail, t);
    SpelledCons(es);
    if last {
      assert t[1..] == after;
      assert after + "" == after;
      SkipBlank(after, "");
      assert Spelled(es) == [Pair(es[0].name, es[0].value.text)];
    } else {
      assert t[1..] == EntriesText(es[1..], after);
      EntriesAreRead(es[1..], after);
    }
  }

  lemma TrailIsBlank(e: Entry)
    requires GoodEntry(e)
    ensures Blank(e.trail)
  {}

  lemma TrailEnds(b: string, t: string)
    requires Blank(b) && StartsEnd(t)
    ensures StartsEnd(b + t)
  {
    if b == "" { assert b + t == t; }
  }

  lemma {:induction false} MembersAreEntries(s: string) returns (es: seq<Entry>, after: string)
    requires Members(s).Some?
    ensures es != [] && GoodEntries(es) && Blank(after)
    ensures s == EntriesText(es, after) && Members(s).value == Spelled(es)
    decreases |s|
  {
    hide ReadMember, SkipSpace, EntryText, GoodEntry, Blank;
    var m := ReadMember(s);
    var e := MemberIsEntry(s);
    var trail := SkipsBlank(m.rest);
    var t := SkipSpace(m.rest);
    e := WithTrail(e, trail);
    if t[0] == ',' {
      var ds;
      ds, after := MembersAreEntries(t[1..]);
      es := [e] + ds;
      assert es[1..] == ds && t == "," + t[1..];
    } else {
      es := [e];
      after := SkipsBlank(t[1..]);
      assert after + "" == after && t == "}" + after;
      assert Spelled(es[1..]) == [];
    }
    SpelledCons(es);
  }

  lemma WithTrail(e: Entry, trail: string) returns (f: Entry)
    requires GoodEntry(e) && Blank(trail)
    ensures GoodEntry(f) && f.trail == trail && EntryText(f) == EntryText(e)
    ensures f.name == e.name && f.value == e.value
  {
    f := e.(trail := trail);
  }

  /** Nothing but blanks, an object without members and anything behind it, or an object of members. */
  datatype Document =
    | Nothing(before: string)
    | Empty(before: string, inside: string, after: string)
    | Full(before: string, entries: seq<Entry>, after: string)

  predicate GoodDocument(d: Document) {
    && Blank(d.before)
    && match d
       case Nothing(_) => true
       case Empty(_, inside, _) => Blank(inside)
       case Full(_, es, after) => es != [] && GoodEntries(es) && Blank(after)
  }

  function Text(d: Document): string
    requires GoodDocument(d)
  {
    match d
    case Nothing(before) => before
    case Empty(before, inside, after) => before + ("{" + (inside + ("}" + after)))
    case Full(before, es, after) => before + ("{" + EntriesText(es, after))
  }

  function Content(d: Document): seq<Pair> {
    if d.Full? then Spelled(d.entries) else []
  }

  /** Every document of the grammar is read, as the members it spells. */
  lemma DocumentIsRead(d: Document)
    requires GoodDocument(d)
    ensures ObjectMembers(Text(d)) == Some(Content(d))
  {
    hide SkipSpace, Blank, Members, GoodEntries, EntriesText;
    match d
    case Nothing(before) =>
      assert before + "" == before;
      SkipBlank(before, "");
    case Empty(before, inside, after) =>
      var u := "}" + after;
      var t := "{" + (inside + u);
      SkipBlank(before, t);
      assert t[1..] == inside + u;
      SkipBlank(inside, u);
    case Full(before, es, after) =>
      var u := EntriesText(es, after);
      SkipBlank(before, "{" + u);
      assert ("{" + u)[1..] == u;
      EntriesAreRead(es, after);
      MembersSkip(u);
  }

  /** Blanks before the first member do not matter, and a text with members does not start with a brace. */
  lemma MembersSkip(s: string)
    ensures Members(SkipSpace(s)) == Members(s)
    ensures Members(s).Some? ==> SkipSpace(s) != "" && SkipSpace(s)[0] == '"'
  {
    SkipTwice(s);
  }

  lemma SkipTwice(s: string)
    ensures SkipSpace(SkipSpace(s)) == SkipSpace(s)
  {
    var _ := SkipsBlank(s);
  }

  /** Every text that is read is a document of the grammar, and its members are what it spells. */
  lemma ReadIsDocument(json: string) returns (d: Document)
    requires ObjectMembers(json).Some?
    ensures GoodDocument(d) && json == Text(d) && ObjectMembers(json).value == Content(d)
  {
    hide SkipSpace, Blank, Members, GoodEntries, EntriesText;
    var before := SkipsBlank(json);
    var s := SkipSpace(json);
    if s == "" {
      assert before + "" == before;
      d := Nothing(before);
    } else {
      assert s == "{" + s[1..];
      var inside := SkipsBlank(s[1..]);
      var t := SkipSpace(s[1..]);
      if t != "" && t[0] == '}' {
        assert t == "}" + t[1..];
        d := Empty(before, inside, t[1..]);
      } else {
        MembersSkip(s[1..]);
        var es, after := MembersAreEntries(s[1..]);
        d := Full(before, es, after);
      }
    }
  }
}
