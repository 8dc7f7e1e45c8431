/**
 What a parse of the table options leaves in the struct, said by option name: the words a yes-or-no
 option takes, the ranges of the session variables the numbers default from, and the name list of each
 enumerated option.
 */
module OptionMeaning {
  import opened Optional
  import opened TableOptions

  // ---- letter case ------------------------------------------------------------------------

  const CAPITALS := "ABCDEFGHIJKLMNOPQRSTUVWXYZ"
  const SMALL := "abcdefghijklmnopqrstuvwxyz"

  /** A capital letter is read as its small form, and every other character as itself. */
  lemma LowerByAlphabet(c: char)
    ensures forall k :: 0 <= k < 26 && c == CAPITALS[k] ==> Lower(c) == SMALL[k]
    ensures c !in CAPITALS ==> Lower(c) == c
  {
    if 'A' <= c <= 'Z' {
      var k := c as int - 'A' as int;
      assert CAPITALS[k] == c;
    }
  }

  function LowerCase(s: string): string {
    seq(|s|, i requires 0 <= i < |s| => Lower(s[i]))
  }

  lemma EqNocaseByLower(a: string, b: string)
    ensures EqNocase(a, b) <==> LowerCase(a) == LowerCase(b)
  {
    if LowerCase(a) == LowerCase(b) {
      assert |LowerCase(a)| == |a| && |LowerCase(b)| == |b|;
      forall i | 0 <= i < |a| ensures Lower(a[i]) == Lower(b[i]) {
        assert LowerCase(a)[i] == LowerCase(b)[i];
      }
    }
  }

  // ---- what a value means -----------------------------------------------------------------

  const TRUE_WORDS: set<string> := {"true", "yes", "on", "1"}
  const FALSE_WORDS: set<string> := {"false", "no", "off", "0"}

  lemma OneCase(s: string)
    requires s in TRUE_WORDS || s in FALSE_WORDS
    ensures LowerCase(s) == s
  {}

  /** to_bool: the words in either case, and the two digits. */
  lemma BooleanWords(v: string)
    ensures ToBool(v) == Some(1) <==> LowerCase(v) in TRUE_WORDS
    ensures ToBool(v) == Some(0) <==> LowerCase(v) in FALSE_WORDS
    ensures ToBool(v).Some? ==> ToBool(v).value <= 1
  {
    hide EqNocase, LowerCase;
    forall w | w in TRUE_WORDS || w in FALSE_WORDS ensures EqNocase(v, w) <==> LowerCase(v) == w {
      EqNocaseByLower(v, w);
      OneCase(w);
    }
    DigitsHaveNoCase(v);
    TrueIsNotFalse();
  }

  lemma TrueIsNotFalse()
    ensures TRUE_WORDS !! FALSE_WORDS
  {}

  lemma DigitsHaveNoCase(v: string)
    ensures EqNocase(v, "1") <==> v == "1"
    ensures EqNocase(v, "0") <==> v == "0"
  {}

  /** The range of the session variable an option defaults from; key numbers are those of the keyring. */
  function Range(name: string): Option<(nat, nat)> {
    if name == "btree_klog_block_size" then Some((512, 0xFFFF_FFFF_FFFF_FFFF))
    else if name == "level_size_ratio" then Some((2, 100))
    else if name == "min_levels" then Some((1, 64))
    else if name == "dividing_level_offset" then Some((0, 64))
    else if name == "bloom_fpr" then Some((1, 10000))
    else if name == "l1_file_count_trigger" then Some((1, 1024))
    else if name == "tombstone_density_trigger" then Some((0, 10000))
    else if name == "tombstone_density_min_entries" then Some((0, 0xFFFF_FFFF_FFFF_FFFF))
    else if name == "ttl" then Some((0, 0xFFFF_FFFF_FFFF_FFFF))
    else if name == "encryption_key_id" then Some((1, 255))
    else None
  }

  predicate YesOrNo(name: string) {
    name == "keep_values_inline" || name == "bloom_filter" || name == "encrypted"
  }

  /** The digits of a 64-bit number. */
  predicate Writes(text: string, n: nat) {
    text != "" && AllDigits(text) && DecimalValue(text) == n < 0x1_0000_0000_0000_0000
  }

  /** The first name equal to the text up to case, or else the position written in digits. */
  predicate Chooses(text: string, list: seq<string>, n: nat) {
    && n < |list|
    && (forall j :: 0 <= j < n ==> !EqNocase(text, list[j]))
    && (EqNocase(text, list[n]) || ((forall j :: 0 <= j < |list| ==> !EqNocase(text, list[j])) && Writes(text, n)))
  }

  /** What a value text means for the option of a name. */
  predicate Denotes(name: string, names: Names, text: string, n: nat) {
    if YesOrNo(name) then (n == 1 && LowerCase(text) in TRUE_WORDS) || (n == 0 && LowerCase(text) in FALSE_WORDS)
    else if name == "compression" then Chooses(text, names.compression, n)
    else if name == "isolation_level" then Chooses(text, names.isolation, n)
    else Range(name).Some? && Writes(text, n) && Range(name).value.0 <= n <= Range(name).value.1
  }

  lemma {:induction false} FirstName(v: string, list: seq<string>, i: nat, n: nat)
    requires i <= |list|
    ensures FindName(v, list, i) == Some(n) <==>
      i <= n < |list| && EqNocase(v, list[n]) && forall j :: i <= j < n ==> !EqNocase(v, list[j])
    ensures FindName(v, list, i).None? <==> forall j :: i <= j < |list| ==> !EqNocase(v, list[j])
    decreases |list| - i
  {
    hide EqNocase;
    if i < |list| {
      FirstName(v, list, i + 1, n);
    }
  }

  lemma EnumChooses(text: string, list: seq<string>, n: nat)
    ensures ToEnum(text, list) == Some(n) <==> Chooses(text, list, n)
  {
    hide EqNocase, FindName, AllDigits, DecimalValue;
    FirstName(text, list, 0, n);
    if FindName(text, list, 0).Some? {
      FirstName(text, list, 0, FindName(text, list, 0).value);
    }
  }

  /** The option table by name: the yes-or-no options, the two lists, and the ranges. */
  lemma TableByName(i: nat)
    requires i < OPTION_COUNT
    ensures OptionKind(i) == Boolean <==> YesOrNo(OptionName(i))
    ensures OptionKind(i) == Compression <==> OptionName(i) == "compression"
    ensures OptionKind(i) == Isolation <==> OptionName(i) == "isolation_level"
    ensures OptionKind(i).Number? ==> Range(OptionName(i)) == Some((OptionKind(i).low, OptionKind(i).high))
  {
    NameShape(i);
  }

  /** A text is read as a value exactly when that is what it means for the option. */
  lemma ReadingDenotes(i: nat, names: Names, text: string, n: nat)
    requires i < OPTION_COUNT
    ensures ReadAs(i, names, text) == Value(n) <==> Denotes(OptionName(i), names, text, n)
  {
    hide OptionName, OptionKind, ToBool, ToEnum, Chooses, YesOrNo, Range, LowerCase, DecimalValue, AllDigits;
    TableByName(i);
    BooleanWords(text);
    EnumChooses(text, names.compression, n);
    EnumChooses(text, names.isolation, n);
  }

  // ---- what a parse leaves ----------------------------------------------------------------

  predicate Naming(p: Pair, i: nat)
    requires i < OPTION_COUNT
  {
    EqNocase(p.name, OptionName(i))
  }

  /** Member k is the last that names option i. */
  predicate LastNaming(ps: seq<Pair>, i: nat, k: nat)
    requires i < OPTION_COUNT
  {
    k < |ps| && Naming(ps[k], i) && forall j :: k < j < |ps| ==> !Naming(ps[j], i)
  }

  lemma FindsNamed(p: Pair, i: nat)
    requires i < OPTION_COUNT
    ensures FindOption(p.name, 0) == Some(i) <==> Naming(p, i)
  {
    hide OptionName;
    if Naming(p, i) {
      FindsFrom(p, i, 0);
    }
  }

  lemma {:induction false} FindsFrom(p: Pair, i: nat, k: nat)
    requires k <= i < OPTION_COUNT && Naming(p, i)
    ensures FindOption(p.name, k) == Some(i)
    decreases i - k
  {
    hide OptionName;
    if k < i {
      if Naming(p, k) { OptionNamesDiffer(k, i); }
      FindsFrom(p, i, k + 1);
    }
  }

  lemma {:induction false} LastForNaming(ps: seq<Pair>, i: nat) returns (k: nat)
    requires i < OPTION_COUNT
    ensures LastFor(ps, i).Some? <==> exists j :: 0 <= j < |ps| && Naming(ps[j], i)
    ensures LastFor(ps, i).Some? ==> LastNaming(ps, i, k) && LastFor(ps, i) == Some(ps[k].text)
    decreases |ps|
  {
    hide FindOption, Naming;
    k := 0;
    if ps != [] {
      var n := |ps| - 1;
      FindsNamed(ps[n], i);
      if Naming(ps[n], i) {
        k := n;
      } else {
        k := LastForNaming(ps[..n], i);
        assert forall j :: 0 <= j < n ==> ps[..n][j] == ps[j];
        if LastFor(ps[..n], i).Some? {
          assert Naming(ps[k], i);
        }
      }
    }
  }

  /** The member names an option and its text means some value of it. */
  ghost predicate Sets(p: Pair, names: Names) {
    exists i, n: nat :: 0 <= i < OPTION_COUNT && Naming(p, i) && Denotes(OptionName(i), names, p.text, n)
  }

  ghost predicate AllSet(ps: seq<Pair>, names: Names) {
    forall k :: 0 <= k < |ps| ==> Sets(ps[k], names)
  }

  /** The last member that names option i means value n. */
  ghost predicate LastMeans(ps: seq<Pair>, names: Names, i: nat, n: nat)
    requires i < OPTION_COUNT
  {
    exists k: nat :: k < |ps| && LastNaming(ps, i, k) && Denotes(OptionName(i), names, ps[k].text, n)
  }

  /** Every option named holds what its last text means, and the others what they held. */
  ghost predicate Settled(o: Options, ps: seq<Pair>, names: Names, o': Options)
    requires |o| == |o'| == OPTION_COUNT
  {
    forall i :: 0 <= i < OPTION_COUNT ==>
      if exists k :: 0 <= k < |ps| && Naming(ps[k], i) then LastMeans(ps, names, i, o'[i]) else o'[i] == o[i]
  }

  lemma SetsWhatFits(p: Pair, names: Names)
    ensures Sets(p, names) <==>
      FindOption(p.name, 0).Some? && ReadAs(FindOption(p.name, 0).value, names, p.text).Value?
  {
    hide FindOption, ReadAs, Denotes, OptionName, Naming;
    var f := FindOption(p.name, 0);
    if f.Some? {
      FindsNamed(p, f.value);
      var r := ReadAs(f.value, names, p.text);
      if r.Value? {
        ReadingDenotes(f.value, names, p.text, r.n);
      }
    }
    if Sets(p, names) {
      var i, n: nat :| 0 <= i < OPTION_COUNT && Naming(p, i) && Denotes(OptionName(i), names, p.text, n);
      FindsNamed(p, i);
      ReadingDenotes(i, names, p.text, n);
    }
  }

  lemma SettledByUpdate(o: Options, ps: seq<Pair>, names: Names, o': Options)
    requires |o| == OPTION_COUNT && UpdatedBy(o, ps, names, o')
    ensures Settled(o, ps, names, o')
  {
    hide ReadAs, Denotes, OptionName, Naming, LastFor, LastNaming;
    forall i | 0 <= i < OPTION_COUNT
      ensures if exists k :: 0 <= k < |ps| && Naming(ps[k], i) then LastMeans(ps, names, i, o'[i]) else o'[i] == o[i]
    {
      var k := LastForNaming(ps, i);
      if LastFor(ps, i).Some? {
        LastInside(ps, i, k);
        ReadingDenotes(i, names, ps[k].text, o'[i]);
        assert LastMeans(ps, names, i, o'[i]);
      }
    }
  }

  lemma LastInside(ps: seq<Pair>, i: nat, k: nat)
    requires i < OPTION_COUNT && LastNaming(ps, i, k)
    ensures k < |ps|
  {}

  /**
   A text parses exactly when it is an object all of whose members name an option, up to case, and
   mean some value of it. Every option then holds what the last text given for it means.
   */
  lemma ParseDenotes(json: string, names: Names, o: Options)
    requires |o| == OPTION_COUNT
    ensures var r, ps := Parse(json, names, o), ObjectMembers(json);
      && (r.Parsed? <==> ps.Some? && AllSet(ps.value, names))
      && (r.Parsed? ==> |r.opts| == OPTION_COUNT && Settled(o, ps.value, names, r.opts))
  {
    hide Parse, ObjectMembers, Sets, Settled, FindOption, ReadAs;
    ParseIsLeftToRight(json, names, o);
    var ps := ObjectMembers(json);
    if ps.Some? {
      forall k | 0 <= k < |ps.value|
        ensures Sets(ps.value[k], names) <==>
          FindOption(ps.value[k].name, 0).Some? &&
          ReadAs(FindOption(ps.value[k].name, 0).value, names, ps.value[k].text).Value?
      {
        SetsWhatFits(ps.value[k], names);
      }
    }
    var r := Parse(json, names, o);
    if r.Parsed? {
      SettledByUpdate(o, ps.value, names, r.opts);
    }
  }

  /**
   A yes-or-no option last named with true, yes, on or 1 is 1, with false, no, off or 0 is 0, and any
   other word given for it is refused.
   */
  lemma YesOrNoOutcome(json: string, names: Names, o: Options, i: nat, k: nat)
    requires |o| == OPTION_COUNT && i < OPTION_COUNT && YesOrNo(OptionName(i)) && ObjectMembers(json).Some?
    requires k < |ObjectMembers(json).value| && Naming(ObjectMembers(json).value[k], i)
    ensures var r, ps := Parse(json, names, o), ObjectMembers(json).value;
      var word := LowerCase(ps[k].text);
      && (word !in TRUE_WORDS && word !in FALSE_WORDS ==> r.Refused?)
      && (r.Parsed? && LastNaming(ps, i, k) && word in TRUE_WORDS ==> |r.opts| == OPTION_COUNT && r.opts[i] == 1)
      && (r.Parsed? && LastNaming(ps, i, k) && word in FALSE_WORDS ==> |r.opts| == OPTION_COUNT && r.opts[i] == 0)
  {
    hide Parse, ObjectMembers, Naming, OptionName, YesOrNo, LowerCase;
    ParseDenotes(json, names, o);
    TrueIsNotFalse();
    var ps := ObjectMembers(json).value;
    if Sets(ps[k], names) {
      var j, n: nat :| 0 <= j < OPTION_COUNT && Naming(ps[k], j) && Denotes(OptionName(j), names, ps[k].text, n);
      FindsNamed(ps[k], i);
      FindsNamed(ps[k], j);
    }
    var r := Parse(json, names, o);
    if r.Parsed? && LastNaming(ps, i, k) {
      assert LastMeans(ps, names, i, r.opts[i]);
      var l: nat :| l < |ps| && LastNaming(ps, i, l) && Denotes(OptionName(i), names, ps[l].text, r.opts[i]);
      assert l == k;
    }
  }

  // ---- letter case does not matter --------------------------------------------------------

  lemma DigitsAlike(a: string, b: string, n: nat)
    requires EqNocase(a, b)
    ensures Writes(a, n) ==> Writes(b, n)
  {
    if AllDigits(a) {
      forall i | 0 <= i < |a| ensures b[i] == a[i] {
        assert Lower(a[i]) == Lower(b[i]);
      }
      assert a == b;
    }
  }

  /** Values equal up to case mean the same. */
  lemma DenoteAlike(name: string, names: Names, a: string, b: string, n: nat)
    requires EqNocase(a, b) && Denotes(name, names, a, n)
    ensures Denotes(name, names, b, n)
  {
    hide YesOrNo, Range, Writes, LowerCase;
    EqNocaseByLower(a, b);
    DigitsAlike(a, b, n);
  }

  predicate Alike(ps: seq<Pair>, qs: seq<Pair>) {
    |ps| == |qs| && forall k :: 0 <= k < |ps| ==> EqNocase(ps[k].name, qs[k].name) && EqNocase(ps[k].text, qs[k].text)
  }

  lemma NameAlike(a: string, b: string, name: string)
    requires EqNocase(a, b)
    ensures EqNocase(a, name) <==> EqNocase(b, name)
  {
    hide EqNocase;
    EqNocaseByLower(a, b);
    EqNocaseByLower(a, name);
    EqNocaseByLower(b, name);
  }

  lemma SetsAlike(p: Pair, q: Pair, names: Names)
    requires EqNocase(p.name, q.name) && EqNocase(p.text, q.text) && Sets(p, names)
    ensures Sets(q, names)
  {
    hide Denotes, OptionName, EqNocase;
    var i, n: nat :| 0 <= i < OPTION_COUNT && Naming(p, i) && Denotes(OptionName(i), names, p.text, n);
    NameAlike(p.name, q.name, OptionName(i));
    DenoteAlike(OptionName(i), names, p.text, q.text, n);
    assert Naming(q, i);
  }

  lemma {:induction false} LastForAlike(ps: seq<Pair>, qs: seq<Pair>, i: nat)
    requires i < OPTION_COUNT && Alike(ps, qs)
    ensures match LastFor(ps, i)
            case None => LastFor(qs, i) == None
            case Some(text) => LastFor(qs, i).Some? && EqNocase(text, LastFor(qs, i).value)
    decreases |ps|
  {
    hide FindOption, EqNocase, OptionName;
    if ps != [] {
      var n := |ps| - 1;
      FindsNamed(ps[n], i);
      FindsNamed(qs[n], i);
      NameAlike(ps[n].name, qs[n].name, OptionName(i));
      assert Alike(ps[..n], qs[..n]) by {
        assert forall k :: 0 <= k < n ==> ps[..n][k] == ps[k] && qs[..n][k] == qs[k];
      }
      LastForAlike(ps[..n], qs[..n], i);
    }
  }

  lemma ReadAlike(i: nat, names: Names, a: string, b: string, n: nat)
    requires i < OPTION_COUNT && EqNocase(a, b) && ReadAs(i, names, a) == Value(n)
    ensures ReadAs(i, names, b) == Value(n)
  {
    hide ReadAs, Denotes, OptionName, EqNocase;
    ReadingDenotes(i, names, a, n);
    DenoteAlike(OptionName(i), names, a, b, n);
    ReadingDenotes(i, names, b, n);
  }

  /** When a text is accepted, so is one whose members agree with its own up to case, with the same struct. */
  lemma ParseAlike(a: string, b: string, names: Names, o: Options)
    requires |o| == OPTION_COUNT && ObjectMembers(a).Some? && ObjectMembers(b).Some?
    requires Alike(ObjectMembers(a).value, ObjectMembers(b).value) && Parse(a, names, o).Parsed?
    ensures Parse(b, names, o) == Parse(a, names, o)
  {
    hide Parse, ObjectMembers, Sets, Settled, FindOption, ReadAs, EqNocase, LastFor;
    var ps, qs := ObjectMembers(a).value, ObjectMembers(b).value;
    ParseDenotes(a, names, o);
    ParseDenotes(b, names, o);
    forall k | 0 <= k < |qs| ensures Sets(qs[k], names) {
      SetsAlike(ps[k], qs[k], names);
    }
    ParseIsLeftToRight(a, names, o);
    ParseIsLeftToRight(b, names, o);
    var x, y := Parse(a, names, o).opts, Parse(b, names, o).opts;
    forall i | 0 <= i < OPTION_COUNT ensures x[i] == y[i] {
      LastForAlike(ps, qs, i);
      var p, q := LastFor(ps, i), LastFor(qs, i);
      if p.Some? {
        ReadAlike(i, names, p.value, q.value, x[i]);
      }
    }
    assert x == y;
  }
}
