/**
  canonicalJson: a printer whose output is compared in place of the values.  Its normal form says
  exactly which values it identifies.
 */
module CanonicalJson {
  import opened JsonText
  import opened StableSort

  /** A JavaScript value canonicalJson is applied to; objects list their entries in enumeration order. */
  datatype Json =
    | Undefined
    | Null
    | Boolean(b: bool)
    | Number(n: int)
    | String(s: Text)
    | Array(items: seq<Json>)
    | Object(fields: seq<Field<Json>>)

  // ---------------------------------------------------------------- the printer

  /** Array.prototype.join(","). */
  function Join(ts: seq<Text>): Text {
    if ts == [] then [] else ts[0] + JoinTail(ts[1..])
  }

  function JoinTail(ts: seq<Text>): Text {
    if ts == [] then [] else [COMMA] + ts[0] + JoinTail(ts[1..])
  }

  function MemberText(f: Field<Text>): Text {
    Quote(f.key) + [COLON] + f.value
  }

  function MemberTexts(fs: seq<Field<Text>>): seq<Text> {
    if fs == [] then [] else [MemberText(fs[0])] + MemberTexts(fs[1..])
  }

  const NULL_TEXT: Text := [110, 117, 108, 108]
  const TRUE_TEXT: Text := [116, 114, 117, 101]
  const FALSE_TEXT: Text := [102, 97, 108, 115, 101]

  /** The text of a value; an undefined value, which has no text, stands as the empty text join puts for it. */
  function CanonicalText(v: Json, le: Comparison): Text
    decreases v, 1
  {
    match v
    case Undefined => []
    case Null => NULL_TEXT
    case Boolean(b) => if b then TRUE_TEXT else FALSE_TEXT
    case Number(n) => IntText(n)
    case String(s) => Quote(s)
    case Array(items) => [OPEN_BRACKET] + Join(CanonicalTexts(items, le)) + [CLOSE_BRACKET]
    case Object(fields) => [OPEN_BRACE] + Join(MemberTexts(Sort(Rendered(fields, le), le))) + [CLOSE_BRACE]
  }

  function CanonicalTexts(items: seq<Json>, le: Comparison): seq<Text>
    decreases items, 0
  {
    if items == [] then [] else [CanonicalText(items[0], le)] + CanonicalTexts(items[1..], le)
  }

  /** The defined entries with their texts. */
  function Rendered(fields: seq<Field<Json>>, le: Comparison): seq<Field<Text>>
    decreases fields, 0
  {
    if fields == [] then []
    else if fields[0].value.Undefined? then Rendered(fields[1..], le)
    else [Field(fields[0].key, CanonicalText(fields[0].value, le))] + Rendered(fields[1..], le)
  }

  // ---------------------------------------------------------------- the normal form

  /**
    What the printer sees: undefined fields are gone, fields are in sorted order, and an array that
    holds just undefined is the empty array.
   */
  function Normal(v: Json, le: Comparison): Json
    decreases v, 1
  {
    match v
    case Array(items) => if items == [Undefined] then Array([]) else Array(NormalItems(items, le))
    case Object(fields) => Object(Sort(NormalFields(fields, le), le))
    case _ => v
  }

  function NormalItems(items: seq<Json>, le: Comparison): (r: seq<Json>)
    ensures |r| == |items|
    decreases items, 0
  {
    if items == [] then [] else [Normal(items[0], le)] + NormalItems(items[1..], le)
  }

  function NormalFields(fields: seq<Field<Json>>, le: Comparison): (r: seq<Field<Json>>)
    ensures forall i :: 0 <= i < |r| ==> !r[i].value.Undefined?
    decreases fields, 0
  {
    if fields == [] then []
    else if fields[0].value.Undefined? then NormalFields(fields[1..], le)
    else [Field(fields[0].key, Normal(fields[0].value, le))] + NormalFields(fields[1..], le)
  }

  /** Printing a value as it stands, without filtering or sorting. */
  function Print(v: Json): Text
    decreases v, 1
  {
    match v
    case Undefined => []
    case Null => NULL_TEXT
    case Boolean(b) => if b then TRUE_TEXT else FALSE_TEXT
    case Number(n) => IntText(n)
    case String(s) => Quote(s)
    case Array(items) => [OPEN_BRACKET] + Join(Prints(items)) + [CLOSE_BRACKET]
    case Object(fields) => [OPEN_BRACE] + Join(MemberTexts(PrintFields(fields))) + [CLOSE_BRACE]
  }

  function Prints(items: seq<Json>): (r: seq<Text>)
    decreases items, 0
  {
    if items == [] then [] else [Print(items[0])] + Prints(items[1..])
  }

  function PrintFields(fields: seq<Field<Json>>): (r: seq<Field<Text>>)
    decreases fields, 0
  {
    if fields == [] then [] else [Field(fields[0].key, Print(fields[0].value))] + PrintFields(fields[1..])
  }

  /** Values Print tells apart: no undefined fields and no array of just undefined. */
  ghost predicate IsNormal(v: Json)
    decreases v, 1
  {
    match v
    case Array(items) => items != [Undefined] && forall x :: x in items ==> IsNormal(x)
    case Object(fields) => forall f :: f in fields ==> !f.value.Undefined? && IsNormal(f.value)
    case _ => true
  }

  // ---------------------------------------------------------------- the printer prints the normal form

  lemma {:induction false} TextIsPrintOfNormal(v: Json, le: Comparison)
    ensures CanonicalText(v, le) == Print(Normal(v, le))
    decreases v, 1
  {
    match v
    case Array(items) =>
      if items == [Undefined] {
        var texts: seq<Text> := [[]];
        assert items[1..] == [] && texts[1..] == [];
        assert CanonicalTexts(items, le) == texts;
      } else {
        ItemTextsArePrints(items, le);
      }
    case Object(fields) =>
      RenderedArePrints(fields, le);
      SortCommutes(NormalFields(fields, le), le);
    case _ =>
  }

  lemma {:induction false} ItemTextsArePrints(items: seq<Json>, le: Comparison)
    ensures CanonicalTexts(items, le) == Prints(NormalItems(items, le))
    decreases items, 0
  {
    if items != [] {
      TextIsPrintOfNormal(items[0], le);
      ItemTextsArePrints(items[1..], le);
      assert NormalItems(items, le)[1..] == NormalItems(items[1..], le);
    }
  }

  lemma {:induction false} RenderedArePrints(fields: seq<Field<Json>>, le: Comparison)
    ensures Rendered(fields, le) == PrintFields(NormalFields(fields, le))
    decreases fields, 0
  {
    if fields != [] {
      RenderedArePrints(fields[1..], le);
      if !fields[0].value.Undefined? {
        TextIsPrintOfNormal(fields[0].value, le);
        var n := Field(fields[0].key, Normal(fields[0].value, le));
        assert NormalFields(fields, le) == [n] + NormalFields(fields[1..], le);
        assert NormalFields(fields, le)[1..] == NormalFields(fields[1..], le);
      }
    }
  }

  /** Sorting looks only at keys, so it does not matter whether values are printed before or after. */
  lemma {:induction false} SortCommutes(fields: seq<Field<Json>>, le: Comparison)
    ensures Sort(PrintFields(fields), le) == PrintFields(Sort(fields, le))
  {
    if fields != [] {
      SortCommutes(fields[1..], le);
      assert PrintFields(fields)[1..] == PrintFields(fields[1..]);
      InsertCommutes(fields[0], Sort(fields[1..], le), le);
    }
  }

  lemma {:induction false} InsertCommutes(f: Field<Json>, s: seq<Field<Json>>, le: Comparison)
    ensures Insert(Field(f.key, Print(f.value)), PrintFields(s), le) == PrintFields(Insert(f, s, le))
  {
    if s == [] {
      assert PrintFields([f]) == [Field(f.key, Print(f.value))] + PrintFields([f][1..]);
    } else if le(f.key, s[0].key) {
      assert ([f] + s)[1..] == s;
    } else {
      InsertCommutes(f, s[1..], le);
      assert PrintFields(s)[1..] == PrintFields(s[1..]);
      assert ([s[0]] + Insert(f, s[1..], le))[1..] == Insert(f, s[1..], le);
    }
  }

  lemma {:induction false} NormalIsNormal(v: Json, le: Comparison)
    ensures IsNormal(Normal(v, le))
    ensures Normal(v, le).Undefined? <==> v.Undefined?
    decreases v, 1
  {
    match v
    case Array(items) => NormalItemsAreNormal(items, le);
    case Object(fields) =>
      NormalFieldsAreNormal(fields, le);
      SortMembers(NormalFields(fields, le), le);
      forall f | f in Sort(NormalFields(fields, le), le) ensures !f.value.Undefined? && IsNormal(f.value) {
        assert f in multiset(NormalFields(fields, le));
      }
    case _ =>
  }

  lemma {:induction false} NormalItemsAreNormal(items: seq<Json>, le: Comparison)
    ensures forall x :: x in NormalItems(items, le) ==> IsNormal(x)
    ensures NormalItems(items, le) == [Undefined] <==> items == [Undefined]
    decreases items, 0
  {
    if items != [] {
      NormalIsNormal(items[0], le);
      NormalItemsAreNormal(items[1..], le);
      assert NormalItems(items, le)[0] == Normal(items[0], le);
      assert |items| == 1 ==> items == [items[0]];
    }
  }

  lemma {:induction false} NormalFieldsAreNormal(fields: seq<Field<Json>>, le: Comparison)
    ensures forall f :: f in NormalFields(fields, le) ==> IsNormal(f.value) && !f.value.Undefined?
    decreases fields, 0
  {
    if fields != [] {
      NormalFieldsAreNormal(fields[1..], le);
      NormalIsNormal(fields[0].value, le);
    }
  }

  // ---------------------------------------------------------------- Print is injective on normal values

  /** A text goes on with something that can follow a value inside an array or object. */
  ghost predicate Closes(s: Text) {
    s != [] && (s[0] == COMMA || s[0] == CLOSE_BRACKET || s[0] == CLOSE_BRACE)
  }

  /** The first unit tells which kind of value follows. */
  ghost function Kind(u: CodeUnit): nat {
    if u == NULL_TEXT[0] then 1 else if u == TRUE_TEXT[0] then 2 else if u == FALSE_TEXT[0] then 3
    else if u == MINUS || IsDigitUnit(u) then 4 else if u == QUOTE then 5
    else if u == OPEN_BRACKET then 6 else if u == OPEN_BRACE then 7 else 0
  }

  ghost function KindOf(v: Json): nat {
    match v
    case Undefined => 0
    case Null => 1
    case Boolean(b) => if b then 2 else 3
    case Number(_) => 4
    case String(_) => 5
    case Array(_) => 6
    case Object(_) => 7
  }

  lemma FirstUnitTellsKind(v: Json, s: Text)
    requires Closes(s)
    ensures Print(v) + s != [] && Kind((Print(v) + s)[0]) == KindOf(v)
  {
    assert Print(v) != [] ==> (Print(v) + s)[0] == Print(v)[0];
    assert Print(v) == [] ==> Print(v) + s == s;
  }

  /** Equal texts, wherever they stand, come from equal normal values. */
  lemma {:induction false} PrintInjective(v: Json, w: Json, s: Text, t: Text)
    requires IsNormal(v) && IsNormal(w) && Closes(s) && Closes(t)
    requires Print(v) + s == Print(w) + t
    ensures v == w && s == t
    decreases v, 1
  {
    FirstUnitTellsKind(v, s);
    FirstUnitTellsKind(w, t);
    assert KindOf(v) == KindOf(w);
    match v
    case Undefined => assert [] + s == s && [] + t == t;
    case Null => PeelText(NULL_TEXT, s, NULL_TEXT, t);
    case Boolean(b) => PeelText(Print(v), s, Print(w), t);
    case Number(n) => IntTextInjective(n, w.n, s, t);
    case String(x) => QuoteInjective(x, w.s, s, t);
    case Array(items) => ArrayInjective(items, w.items, s, t);
    case Object(fields) => ObjectInjective(fields, w.fields, s, t);
  }

  lemma Bracketed(open: CodeUnit, body: Text, close: CodeUnit, s: Text)
    ensures ([open] + body + [close]) + s == [open] + (body + ([close] + s))
  {
  }

  lemma JoinSteps(ts: seq<Text>, rest: Text)
    ensures JoinTail([]) + rest == rest && Join([]) + rest == rest
    ensures ts != [] ==> Join(ts) + rest == ts[0] + (JoinTail(ts[1..]) + rest)
    ensures ts != [] ==> JoinTail(ts) + rest == [COMMA] + (ts[0] + (JoinTail(ts[1..]) + rest))
  {
    if ts != [] {
      var tail := JoinTail(ts[1..]);
      Associates(ts[0], tail, rest);
      Associates([COMMA] + ts[0], tail, rest);
      Associates([COMMA], ts[0], tail + rest);
    }
  }

  lemma Associates(a: Text, b: Text, c: Text)
    ensures (a + b) + c == a + (b + c)
  {
  }

  lemma TailCloses(ts: seq<Text>, close: CodeUnit, s: Text)
    requires close == CLOSE_BRACKET || close == CLOSE_BRACE
    ensures Closes(JoinTail(ts) + ([close] + s))
    ensures (JoinTail(ts) + ([close] + s))[0] == close <==> ts == []
  {
    JoinSteps(ts, [close] + s);
  }

  lemma SplitFirst<T>(xs: seq<T>)
    requires xs != []
    ensures xs == [xs[0]] + xs[1..] && (xs[1..] == [] ==> xs == [xs[0]])
  {
  }

  lemma PrintsStep(xs: seq<Json>)
    ensures Prints([]) == []
    ensures xs != [] ==> Prints(xs) != [] && Prints(xs)[0] == Print(xs[0]) && Prints(xs)[1..] == Prints(xs[1..])
  {
  }

  lemma {:induction false} ArrayInjective(xs: seq<Json>, ys: seq<Json>, s: Text, t: Text)
    requires IsNormal(Array(xs)) && IsNormal(Array(ys))
    requires Print(Array(xs)) + s == Print(Array(ys)) + t
    ensures xs == ys && s == t
    decreases xs, 1
  {
    hide Join, JoinTail, Prints;
    var restX, restY := [CLOSE_BRACKET] + s, [CLOSE_BRACKET] + t;
    Bracketed(OPEN_BRACKET, Join(Prints(xs)), CLOSE_BRACKET, s);
    Bracketed(OPEN_BRACKET, Join(Prints(ys)), CLOSE_BRACKET, t);
    Peel(OPEN_BRACKET, Join(Prints(xs)) + restX, OPEN_BRACKET, Join(Prints(ys)) + restY);
    ItemsStart(xs, s);
    ItemsStart(ys, t);
    PrintsStep(xs);
    PrintsStep(ys);
    JoinSteps(Prints(xs), restX);
    JoinSteps(Prints(ys), restY);
    if xs != [] && ys != [] {
      ItemThenTail(xs, ys, s, t);
    } else if xs == [] && ys == [] {
      Peel(CLOSE_BRACKET, s, CLOSE_BRACKET, t);
    }
  }

  /** An array's text goes straight to the closing bracket exactly when it has no items. */
  lemma ItemsStart(xs: seq<Json>, s: Text)
    requires xs != [Undefined]
    ensures Join(Prints(xs)) + ([CLOSE_BRACKET] + s) != []
    ensures (Join(Prints(xs)) + ([CLOSE_BRACKET] + s))[0] == CLOSE_BRACKET <==> xs == []
  {
    JoinSteps(Prints(xs), [CLOSE_BRACKET] + s);
    if xs != [] {
      SplitFirst(xs);
      var rest := JoinTail(Prints(xs[1..])) + ([CLOSE_BRACKET] + s);
      TailCloses(Prints(xs[1..]), CLOSE_BRACKET, s);
      FirstUnitTellsKind(xs[0], rest);
      if xs[0] == Undefined {
        assert Print(xs[0]) + rest == rest;
      }
    }
  }

  /** The same first item, then the same remaining ones. */
  lemma {:induction false} ItemThenTail(xs: seq<Json>, ys: seq<Json>, s: Text, t: Text)
    requires xs != [] && ys != [] && forall x :: x in xs || x in ys ==> IsNormal(x)
    requires Print(xs[0]) + (JoinTail(Prints(xs[1..])) + ([CLOSE_BRACKET] + s))
      == Print(ys[0]) + (JoinTail(Prints(ys[1..])) + ([CLOSE_BRACKET] + t))
    ensures xs == ys && s == t
    decreases xs, 0
  {
    hide JoinTail, Prints;
    TailCloses(Prints(xs[1..]), CLOSE_BRACKET, s);
    TailCloses(Prints(ys[1..]), CLOSE_BRACKET, t);
    PrintInjective(xs[0], ys[0], JoinTail(Prints(xs[1..])) + ([CLOSE_BRACKET] + s), JoinTail(Prints(ys[1..])) + ([CLOSE_BRACKET] + t));
    ItemTailInjective(xs[1..], ys[1..], s, t);
    SplitFirst(xs);
    SplitFirst(ys);
  }

  lemma {:induction false} ItemTailInjective(xs: seq<Json>, ys: seq<Json>, s: Text, t: Text)
    requires forall x :: x in xs || x in ys ==> IsNormal(x)
    requires JoinTail(Prints(xs)) + ([CLOSE_BRACKET] + s) == JoinTail(Prints(ys)) + ([CLOSE_BRACKET] + t)
    ensures xs == ys && s == t
    decreases xs, 1
  {
    hide JoinTail, Prints;
    TailCloses(Prints(xs), CLOSE_BRACKET, s);
    TailCloses(Prints(ys), CLOSE_BRACKET, t);
    PrintsStep(xs);
    PrintsStep(ys);
    JoinSteps(Prints(xs), [CLOSE_BRACKET] + s);
    JoinSteps(Prints(ys), [CLOSE_BRACKET] + t);
    if xs == [] {
      Peel(CLOSE_BRACKET, s, CLOSE_BRACKET, t);
    } else {
      Peel(COMMA, Print(xs[0]) + (JoinTail(Prints(xs[1..])) + ([CLOSE_BRACKET] + s)),
           COMMA, Print(ys[0]) + (JoinTail(Prints(ys[1..])) + ([CLOSE_BRACKET] + t)));
      ItemThenTail(xs, ys, s, t);
    }
  }

  function FieldText(f: Field<Json>): (t: Text)
    ensures t != [] && t[0] == QUOTE
  {
    MemberText(Field(f.key, Print(f.value)))
  }

  function FieldTexts(fs: seq<Field<Json>>): seq<Text> {
    MemberTexts(PrintFields(fs))
  }

  lemma FieldTextsStep(fs: seq<Field<Json>>)
    ensures FieldTexts([]) == []
    ensures fs != [] ==> FieldTexts(fs) != [] && FieldTexts(fs)[0] == FieldText(fs[0]) && FieldTexts(fs)[1..] == FieldTexts(fs[1..])
  {
    if fs != [] {
      assert PrintFields(fs)[1..] == PrintFields(fs[1..]);
    }
  }

  /** One member and what follows it. */
  lemma {:induction false} MemberInjective(f: Field<Json>, g: Field<Json>, s: Text, t: Text)
    requires IsNormal(f.value) && IsNormal(g.value) && Closes(s) && Closes(t)
    requires FieldText(f) + s == FieldText(g) + t
    ensures f == g && s == t
    decreases f.value, 2
  {
    var a, b := [COLON] + (Print(f.value) + s), [COLON] + (Print(g.value) + t);
    MemberParts(Quote(f.key), Print(f.value), s);
    MemberParts(Quote(g.key), Print(g.value), t);
    QuoteInjective(f.key, g.key, a, b);
    Peel(COLON, Print(f.value) + s, COLON, Print(g.value) + t);
    PrintInjective(f.value, g.value, s, t);
  }

  lemma MemberParts(key: Text, value: Text, s: Text)
    ensures (key + [COLON] + value) + s == key + ([COLON] + (value + s))
  {
  }

  lemma {:induction false} ObjectInjective(fs: seq<Field<Json>>, gs: seq<Field<Json>>, s: Text, t: Text)
    requires IsNormal(Object(fs)) && IsNormal(Object(gs))
    requires Print(Object(fs)) + s == Print(Object(gs)) + t
    ensures fs == gs && s == t
    decreases fs, 1
  {
    hide Join, JoinTail, MemberTexts, PrintFields, FieldText;
    var restF, restG := [CLOSE_BRACE] + s, [CLOSE_BRACE] + t;
    Bracketed(OPEN_BRACE, Join(FieldTexts(fs)), CLOSE_BRACE, s);
    Bracketed(OPEN_BRACE, Join(FieldTexts(gs)), CLOSE_BRACE, t);
    Peel(OPEN_BRACE, Join(FieldTexts(fs)) + restF, OPEN_BRACE, Join(FieldTexts(gs)) + restG);
    FieldTextsStep(fs);
    FieldTextsStep(gs);
    JoinSteps(FieldTexts(fs), restF);
    JoinSteps(FieldTexts(gs), restG);
    FieldsStart(fs, s);
    FieldsStart(gs, t);
    if fs != [] && gs != [] {
      FieldThenTail(fs, gs, s, t);
    } else if fs == [] && gs == [] {
      Peel(CLOSE_BRACE, s, CLOSE_BRACE, t);
    }
  }

  lemma FieldsStart(fs: seq<Field<Json>>, s: Text)
    ensures Join(FieldTexts(fs)) + ([CLOSE_BRACE] + s) != []
    ensures (Join(FieldTexts(fs)) + ([CLOSE_BRACE] + s))[0] == CLOSE_BRACE <==> fs == []
  {
    FieldTextsStep(fs);
    JoinSteps(FieldTexts(fs), [CLOSE_BRACE] + s);
  }

  /** The same first member, then the same remaining ones. */
  lemma {:induction false} FieldThenTail(fs: seq<Field<Json>>, gs: seq<Field<Json>>, s: Text, t: Text)
    requires fs != [] && gs != [] && forall f :: f in fs || f in gs ==> IsNormal(f.value)
    requires FieldText(fs[0]) + (JoinTail(FieldTexts(fs[1..])) + ([CLOSE_BRACE] + s))
      == FieldText(gs[0]) + (JoinTail(FieldTexts(gs[1..])) + ([CLOSE_BRACE] + t))
    ensures fs == gs && s == t
    decreases fs, 0
  {
    hide JoinTail, FieldTexts, FieldText;
    TailCloses(FieldTexts(fs[1..]), CLOSE_BRACE, s);
    TailCloses(FieldTexts(gs[1..]), CLOSE_BRACE, t);
    MemberInjective(fs[0], gs[0], JoinTail(FieldTexts(fs[1..])) + ([CLOSE_BRACE] + s), JoinTail(FieldTexts(gs[1..])) + ([CLOSE_BRACE] + t));
    FieldTailInjective(fs[1..], gs[1..], s, t);
    SplitFirst(fs);
    SplitFirst(gs);
  }

  lemma {:induction false} FieldTailInjective(fs: seq<Field<Json>>, gs: seq<Field<Json>>, s: Text, t: Text)
    requires forall f :: f in fs || f in gs ==> IsNormal(f.value)
    requires JoinTail(FieldTexts(fs)) + ([CLOSE_BRACE] + s) == JoinTail(FieldTexts(gs)) + ([CLOSE_BRACE] + t)
    ensures fs == gs && s == t
    decreases fs, 1
  {
    hide JoinTail, FieldTexts, FieldText;
    FieldTextsStep(fs);
    FieldTextsStep(gs);
    TailCloses(FieldTexts(fs), CLOSE_BRACE, s);
    TailCloses(FieldTexts(gs), CLOSE_BRACE, t);
    JoinSteps(FieldTexts(fs), [CLOSE_BRACE] + s);
    JoinSteps(FieldTexts(gs), [CLOSE_BRACE] + t);
    if fs == [] {
      Peel(CLOSE_BRACE, s, CLOSE_BRACE, t);
    } else {
      Peel(COMMA, FieldText(fs[0]) + (JoinTail(FieldTexts(fs[1..])) + ([CLOSE_BRACE] + s)),
           COMMA, FieldText(gs[0]) + (JoinTail(FieldTexts(gs[1..])) + ([CLOSE_BRACE] + t)));
      FieldThenTail(fs, gs, s, t);
    }
  }

  // ---------------------------------------------------------------- main results

  /** Equal texts exactly for values with the same normal form, whatever the key comparison. */
  lemma EqualTextsExactly(v: Json, w: Json, le: Comparison)
    ensures CanonicalText(v, le) == CanonicalText(w, le) <==> Normal(v, le) == Normal(w, le)
  {
    TextIsPrintOfNormal(v, le);
    TextIsPrintOfNormal(w, le);
    if CanonicalText(v, le) == CanonicalText(w, le) {
      NormalIsNormal(v, le);
      NormalIsNormal(w, le);
      PrintInjective(Normal(v, le), Normal(w, le), [COMMA], [COMMA]);
    }
  }
}
