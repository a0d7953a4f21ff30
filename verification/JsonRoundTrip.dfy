/** Canonical texts are JSON: the reader gives back the value, sorted and without undefined fields. */
module JsonRoundTrip {
  import opened Wrappers
  import opened Digits
  import opened JsonText
  import opened StableSort
  import opened CanonicalJson
  import opened JsonReader

  // ---------------------------------------------------------------- integers

  lemma {:induction false} DecimalIsNumeral(t: Text)
    requires AllDigits(t)
    ensures DecimalOf(t) == Numeral(DigitValues(t), 10)
  {
    if t != [] {
      var front := t[..|t| - 1];
      DecimalIsNumeral(front);
      assert DigitValues(t)[..|t| - 1] == DigitValues(front);
    }
  }

  lemma {:induction false} RunOfDigits(a: Text, rest: Text)
    requires AllDigits(a) && NoDigitFirst(rest)
    ensures DigitRun(a + rest) == |a|
  {
    if a == [] {
      assert a + rest == rest;
    } else {
      assert (a + rest)[1..] == a[1..] + rest;
      RunOfDigits(a[1..], rest);
    }
  }

  lemma NatTextStart(n: nat)
    requires n > 0
    ensures NatText(n)[0] != 48
  {
    NumeralOfDigits(n, 10);
  }

  lemma ReadsNat(n: nat, rest: Text)
    requires NoDigitFirst(rest)
    ensures ReadNat(NatText(n) + rest) == Some((n, rest))
  {
    var a := NatText(n);
    var t := a + rest;
    assert t[0] == a[0];
    if n == 0 {
      assert t[1..] == rest;
    } else {
      hide NatText, DecimalOf;
      NatTextStart(n);
      RunOfDigits(a, rest);
      assert t[..|a|] == a && t[|a|..] == rest;
      DecimalIsNumeral(a);
      NatTextDenotes(n);
    }
  }

  lemma ReadsInt(n: int, rest: Text)
    requires NoDigitFirst(rest)
    ensures ReadInt(IntText(n) + rest) == Some((n, rest))
  {
    hide NatText, ReadNat;
    var t := IntText(n) + rest;
    if n < 0 {
      assert t[1..] == NatText(-n) + rest;
      ReadsNat(-n, rest);
    } else {
      assert t[0] == NatText(n)[0];
      ReadsNat(n, rest);
    }
  }

  // ---------------------------------------------------------------- strings

  lemma HexReads(d: nat)
    requires d < 16
    ensures HexOf(HexDigit(d)) == Some(d)
  {
  }

  lemma ReadsUnicode(u: CodeUnit, rest: Text)
    ensures ReadChar(UnicodeEscape(u) + rest) == Some((u, rest))
  {
    var e := UnicodeEscape(u);
    var t := e + rest;
    assert t[..6] == e && t[6..] == rest;
    assert t[0] == e[0] && t[1] == e[1] && t[2] == e[2] && t[3] == e[3] && t[4] == e[4] && t[5] == e[5];
    HexReads(u / 4096);
    HexReads(u / 256 % 16);
    HexReads(u / 16 % 16);
    HexReads(u % 16);
    HexParts(u);
    hide HexOf, HexDigit;
  }

  lemma ReadsShort(u: CodeUnit, rest: Text)
    requires ShortEscape(u) != 0
    ensures ReadChar([BACKSLASH, ShortEscape(u)] + rest) == Some((u, rest))
  {
    var t := [BACKSLASH, ShortEscape(u)] + rest;
    assert t[0] == BACKSLASH && t[1] == ShortEscape(u) && t[2..] == rest;
  }

  lemma ReadsPlain(u: CodeUnit, rest: Text)
    requires u >= 32 && u != QUOTE && u != BACKSLASH
    ensures ReadChar([u] + rest) == Some((u, rest))
  {
    assert ([u] + rest)[0] == u && ([u] + rest)[1..] == rest;
  }

  /** After a character that is read, the string goes on. */
  lemma OneMoreChar(t: Text, u: CodeUnit, rest: Text, s: Text, x: Text)
    requires ReadChar(t) == Some((u, rest)) && ReadChars(rest) == Some((s, x))
    ensures ReadChars(t) == Some(([u] + s, x))
  {
    assert !Sees(t, '\"');
  }

  lemma {:induction false} ReadsEscape(s: Text, x: Text)
    ensures ReadChars(Escape(s) + ([QUOTE] + x)) == Some((s, x))
    decreases |s|
  {
    var close := [QUOTE] + x;
    if s == [] {
      EscapeEmpty(x);
      assert close[1..] == x;
    } else {
      var n, tail := TokenWidth(s), Escape(s[TokenWidth(s)..]) + close;
      EscapeStep(s, close);
      ReadsEscape(s[n..], x);
      assert s == s[..n] + s[n..];
      hide Escape, ReadChars;
      ReadsToken(s, tail, s[n..], x);
    }
  }

  lemma ReadsToken(s: Text, tail: Text, rest: Text, x: Text)
    requires s != [] && ReadChars(tail) == Some((rest, x))
    ensures ReadChars(Token(s) + tail) == Some((s[..TokenWidth(s)] + rest, x))
  {
    hide ReadChars, ReadChar, UnicodeEscape;
    var u := s[0];
    if TokenWidth(s) == 2 {
      var v := s[1];
      assert Token(s) + tail == [u] + ([v] + tail);
      ReadsPlain(v, tail);
      OneMoreChar([v] + tail, v, tail, rest, x);
      ReadsPlain(u, [v] + tail);
      OneMoreChar([u] + ([v] + tail), u, [v] + tail, [v] + rest, x);
      assert s[..2] + rest == [u] + ([v] + rest);
    } else {
      if ShortEscape(u) != 0 {
        ReadsShort(u, tail);
      } else if u < 32 || HighSurrogate(u) || LowSurrogate(u) {
        ReadsUnicode(u, tail);
      } else {
        ReadsPlain(u, tail);
      }
      OneMoreChar(Token(s) + tail, u, tail, rest, x);
      assert s[..1] == [u];
    }
  }

  // ---------------------------------------------------------------- values

  /** No undefined value anywhere. */
  ghost predicate Plain(v: Json)
    decreases v
  {
    match v
    case Undefined => false
    case Array(items) => forall x :: x in items ==> Plain(x)
    case Object(fields) => forall f :: f in fields ==> Plain(f.value)
    case _ => true
  }

  lemma NoSpace(t: Text)
    requires t == [] || !IsSpace(t[0])
    ensures SkipSpace(t) == t
  {
  }

  lemma ReadsString(s: Text, rest: Text)
    ensures ReadValue(Quote(s) + rest) == Some((String(s), rest))
  {
    var t := Quote(s) + rest;
    assert t[1..] == Escape(s) + ([QUOTE] + rest);
    assert t[0] == QUOTE;
    ReadsEscape(s, rest);
    NoSpace(t);
  }

  lemma ReadsNumber(n: int, rest: Text)
    requires NoDigitFirst(rest)
    ensures ReadValue(IntText(n) + rest) == Some((Number(n), rest))
  {
    hide IntText, ReadInt;
    var t := IntText(n) + rest;
    assert t[0] == IntText(n)[0];
    ReadsInt(n, rest);
    NoSpace(t);
  }

  lemma ReadsLiteral(v: Json, rest: Text)
    requires v.Null? || v.Boolean?
    ensures ReadValue(Print(v) + rest) == Some((v, rest))
  {
    var a := Print(v);
    var t := a + rest;
    assert t[..|a|] == a && t[|a|..] == rest;
    assert forall i :: 0 <= i < |a| ==> t[i] == a[i];
    NoSpace(t);
  }

  /** A printed value never starts with a space or something that closes. */
  lemma PrintStarts(v: Json, rest: Text)
    requires Plain(v)
    ensures Print(v) != [] && (Print(v) + rest)[0] == Print(v)[0]
    ensures !IsSpace(Print(v)[0]) && !Is(Print(v)[0], ']') && !Is(Print(v)[0], '}')
  {
    hide IntText, Escape;
  }

  /** The reader undoes the plain printer, in any context that does not go on with a digit. */
  lemma {:induction false} ReadsPrint(v: Json, rest: Text)
    requires Plain(v) && NoDigitFirst(rest)
    ensures ReadValue(Print(v) + rest) == Some((v, rest))
    decreases v, 1
  {
    match v
    case Null => ReadsLiteral(v, rest);
    case Boolean(b) => ReadsLiteral(v, rest);
    case Number(n) => ReadsNumber(n, rest);
    case String(s) => ReadsString(s, rest);
    case Array(items) =>
      var body := Join(Prints(items)) + ([CLOSE_BRACKET] + rest);
      Bracketed(OPEN_BRACKET, Join(Prints(items)), CLOSE_BRACKET, rest);
      if items != [] {
        ReadsItems(items, rest);
        ItemsBegin(items, rest);
      }
      ReadsArray(items, body, rest);
    case Object(fields) =>
      var body := Join(MemberTexts(PrintFields(fields))) + ([CLOSE_BRACE] + rest);
      Bracketed(OPEN_BRACE, Join(MemberTexts(PrintFields(fields))), CLOSE_BRACE, rest);
      if fields != [] {
        ReadsMembers(fields, rest);
        MembersBegin(fields, rest);
      }
      ReadsObject(fields, body, rest);
  }

  lemma ItemsBegin(items: seq<Json>, rest: Text)
    requires items != [] && Plain(Array(items))
    ensures
      var body := Join(Prints(items)) + ([CLOSE_BRACKET] + rest);
      body != [] && !IsSpace(body[0]) && !Is(body[0], ']')
  {
    hide Print;
    PrintStarts(items[0], []);
    assert Prints(items)[0] == Print(items[0]);
    assert (Join(Prints(items)) + ([CLOSE_BRACKET] + rest))[0] == Print(items[0])[0];
  }

  lemma MembersBegin(fields: seq<Field<Json>>, rest: Text)
    requires fields != []
    ensures
      var body := Join(MemberTexts(PrintFields(fields))) + ([CLOSE_BRACE] + rest);
      body != [] && body[0] == QUOTE
  {
    hide Print, Escape;
  }

  lemma ReadsArray(items: seq<Json>, body: Text, rest: Text)
    requires items == [] ==> body == [CLOSE_BRACKET] + rest
    requires items != [] ==> body != [] && !IsSpace(body[0]) && !Is(body[0], ']') && ReadItems(body) == Some((items, rest))
    ensures ReadValue([OPEN_BRACKET] + body) == Some((Array(items), rest))
  {
    hide ReadItems;
    var t := [OPEN_BRACKET] + body;
    assert t[0] == OPEN_BRACKET && t[1..] == body;
    NoSpace(t);
    NoSpace(body);
    if items == [] {
      assert body[1..] == rest;
    }
  }

  lemma ReadsObject(fields: seq<Field<Json>>, body: Text, rest: Text)
    requires fields == [] ==> body == [CLOSE_BRACE] + rest
    requires fields != [] ==> body != [] && body[0] == QUOTE && ReadMembers(body) == Some((fields, rest))
    ensures ReadValue([OPEN_BRACE] + body) == Some((Object(fields), rest))
  {
    hide ReadMembers;
    var t := [OPEN_BRACE] + body;
    assert t[0] == OPEN_BRACE && t[1..] == body;
    NoSpace(t);
    NoSpace(body);
    if fields == [] {
      assert body[1..] == rest;
    }
  }

  /** A structural character is no space. */
  lemma Structural(u: CodeUnit, rest: Text)
    requires u == COMMA || u == CLOSE_BRACKET || u == CLOSE_BRACE || u == COLON || u == QUOTE
    ensures SkipSpace([u] + rest) == [u] + rest && ([u] + rest)[1..] == rest
    ensures Sees([u] + rest, ',') <==> u == COMMA
    ensures Sees([u] + rest, ']') <==> u == CLOSE_BRACKET
    ensures Sees([u] + rest, '}') <==> u == CLOSE_BRACE
    ensures Sees([u] + rest, ':') <==> u == COLON
    ensures Sees([u] + rest, '\"') <==> u == QUOTE
  {
    assert ([u] + rest)[0] == u;
    NoSpace([u] + rest);
  }

  lemma LastItem(t: Text, x: Json, rest: Text)
    requires ReadValue(t) == Some((x, [CLOSE_BRACKET] + rest))
    ensures ReadItems(t) == Some(([x], rest))
  {
    hide ReadValue, SkipSpace, Sees;
    Structural(CLOSE_BRACKET, rest);
  }

  lemma OneMoreItem(t: Text, x: Json, body: Text, more: seq<Json>, rest: Text)
    requires ReadValue(t) == Some((x, [COMMA] + body)) && ReadItems(body) == Some((more, rest))
    ensures ReadItems(t) == Some(([x] + more, rest))
  {
    hide ReadValue, SkipSpace, Sees;
    Structural(COMMA, body);
  }

  lemma LastMember(t: Text, f: Field<Json>, rest: Text)
    requires ReadMember(t) == Some((f, [CLOSE_BRACE] + rest))
    ensures ReadMembers(t) == Some(([f], rest))
  {
    hide ReadMember, SkipSpace, Sees;
    Structural(CLOSE_BRACE, rest);
  }

  lemma OneMoreMember(t: Text, f: Field<Json>, body: Text, more: seq<Field<Json>>, rest: Text)
    requires ReadMember(t) == Some((f, [COMMA] + body)) && ReadMembers(body) == Some((more, rest))
    ensures ReadMembers(t) == Some(([f] + more, rest))
  {
    hide ReadMember, SkipSpace, Sees;
    Structural(COMMA, body);
  }

  lemma {:induction false} ReadsItems(items: seq<Json>, rest: Text)
    requires items != [] && Plain(Array(items))
    ensures ReadItems(Join(Prints(items)) + ([CLOSE_BRACKET] + rest)) == Some((items, rest))
    decreases items, 0
  {
    hide Print, ReadValue, ReadItems, Prints, Join;
    var x, more, close := items[0], items[1..], [CLOSE_BRACKET] + rest;
    var t := Join(Prints(items)) + close;
    ItemsSplit(items, close);
    if more == [] {
      LastTail(close);
      ReadsPrint(x, close);
      LastItem(t, x, rest);
      assert items == [x];
    } else {
      var body := Join(Prints(more)) + close;
      PrintsNotEmpty(more);
      TailIsComma(Prints(more), close);
      ReadsPrint(x, [COMMA] + body);
      ReadsItems(more, rest);
      OneMoreItem(t, x, body, more, rest);
      assert items == [x] + more;
    }
  }

  lemma LastTail(rest: Text)
    ensures JoinTail(Prints([])) + rest == rest && JoinTail(MemberTexts(PrintFields([]))) + rest == rest
  {
  }

  lemma PrintsNotEmpty(items: seq<Json>)
    requires items != []
    ensures Prints(items) != []
  {
  }

  lemma MembersNotEmpty(fields: seq<Field<Json>>)
    requires fields != []
    ensures MemberTexts(PrintFields(fields)) != []
  {
  }

  lemma ItemsSplit(items: seq<Json>, rest: Text)
    requires items != []
    ensures Join(Prints(items)) + rest == Print(items[0]) + (JoinTail(Prints(items[1..])) + rest)
  {
    hide Print;
    assert Prints(items)[1..] == Prints(items[1..]);
  }

  lemma TailIsComma(ts: seq<Text>, rest: Text)
    requires ts != []
    ensures JoinTail(ts) + rest == [COMMA] + (Join(ts) + rest)
  {
  }

  lemma {:induction false} ReadsMembers(fields: seq<Field<Json>>, rest: Text)
    requires fields != [] && Plain(Object(fields))
    ensures ReadMembers(Join(MemberTexts(PrintFields(fields))) + ([CLOSE_BRACE] + rest)) == Some((fields, rest))
    decreases fields, 0
  {
    hide Print, ReadMember, ReadMembers, ReadValue, MemberTexts, PrintFields, Join, Quote;
    var f, more, close := fields[0], fields[1..], [CLOSE_BRACE] + rest;
    var t := Join(MemberTexts(PrintFields(fields))) + close;
    MembersSplit(fields, close);
    if more == [] {
      LastTail(close);
      ReadsPrint(f.value, close);
      ReadsMember(f, close);
      LastMember(t, f, rest);
      assert fields == [f];
    } else {
      var body := Join(MemberTexts(PrintFields(more))) + close;
      MembersNotEmpty(more);
      TailIsComma(MemberTexts(PrintFields(more)), close);
      ReadsPrint(f.value, [COMMA] + body);
      ReadsMember(f, [COMMA] + body);
      ReadsMembers(more, rest);
      OneMoreMember(t, f, body, more, rest);
      assert fields == [f] + more;
    }
  }

  lemma MembersSplit(fields: seq<Field<Json>>, rest: Text)
    requires fields != []
    ensures
      var f := fields[0];
      Join(MemberTexts(PrintFields(fields))) + rest ==
        (Quote(f.key) + [COLON] + Print(f.value)) + (JoinTail(MemberTexts(PrintFields(fields[1..]))) + rest)
  {
    hide Print, Quote;
    assert PrintFields(fields)[1..] == PrintFields(fields[1..]);
    assert MemberTexts(PrintFields(fields))[1..] == MemberTexts(PrintFields(fields[1..]));
  }

  lemma ReadsMember(f: Field<Json>, after: Text)
    requires Plain(f.value) && ReadValue(Print(f.value) + after) == Some((f.value, after))
    ensures ReadMember((Quote(f.key) + [COLON] + Print(f.value)) + after) == Some((f, after))
  {
    hide Print, ReadValue, Escape, SkipSpace, Sees, ReadChars;
    var value := Print(f.value) + after;
    var colon := [COLON] + value;
    var chars := Escape(f.key) + ([QUOTE] + colon);
    assert (Quote(f.key) + [COLON] + Print(f.value)) + after == [QUOTE] + chars;
    ReadsEscape(f.key, colon);
    Structural(QUOTE, chars);
    Structural(COLON, value);
  }

  // ---------------------------------------------------------------- the canonical text

  /** No array inside has an undefined item; undefined fields may be there. */
  ghost predicate NoUndefinedItems(v: Json)
    decreases v
  {
    match v
    case Array(items) => forall x :: x in items ==> !x.Undefined? && NoUndefinedItems(x)
    case Object(fields) => forall f :: f in fields ==> NoUndefinedItems(f.value)
    case _ => true
  }

  lemma {:induction false} NormalIsPlain(v: Json, le: Comparison)
    requires NoUndefinedItems(v) && !v.Undefined?
    ensures Plain(Normal(v, le))
    decreases v, 1
  {
    match v
    case Array(items) => NormalItemsArePlain(items, le);
    case Object(fields) =>
      NormalFieldsArePlain(fields, le);
      SortMembers(NormalFields(fields, le), le);
      forall f | f in Sort(NormalFields(fields, le), le) ensures Plain(f.value) {
        assert f in multiset(NormalFields(fields, le));
      }
    case _ =>
  }

  lemma {:induction false} NormalItemsArePlain(items: seq<Json>, le: Comparison)
    requires forall x :: x in items ==> !x.Undefined? && NoUndefinedItems(x)
    ensures forall x :: x in NormalItems(items, le) ==> Plain(x)
    decreases items, 0
  {
    if items != [] {
      NormalIsPlain(items[0], le);
      NormalItemsArePlain(items[1..], le);
    }
  }

  lemma {:induction false} NormalFieldsArePlain(fields: seq<Field<Json>>, le: Comparison)
    requires forall f :: f in fields ==> NoUndefinedItems(f.value)
    ensures forall f :: f in NormalFields(fields, le) ==> Plain(f.value)
    decreases fields, 0
  {
    if fields != [] {
      NormalFieldsArePlain(fields[1..], le);
      if !fields[0].value.Undefined? {
        NormalIsPlain(fields[0].value, le);
      }
    }
  }

  /**
    The canonical text of a value, for any key comparison, is JSON text, and reading it gives the value
    back with its undefined fields left out and its keys in order.
   */
  lemma CanonicalTextReadsBack(v: Json, le: Comparison)
    requires NoUndefinedItems(v) && !v.Undefined?
    ensures Read(CanonicalText(v, le)) == Some(Normal(v, le))
  {
    hide ReadValue, Normal, Print, CanonicalText;
    TextIsPrintOfNormal(v, le);
    NormalIsPlain(v, le);
    var t := Print(Normal(v, le));
    ReadsPrint(Normal(v, le), []);
    assert t + [] == t;
  }
}
