/**
  A reader of JSON text in the sense of RFC 8259, for values whose numbers are integers.  It is written
  from the grammar, apart from the printer: literals, structural characters and escapes are spelled
  here as characters.
 */
module JsonReader {
  import opened Wrappers
  import opened JsonText
  import opened StableSort
  import opened CanonicalJson

  predicate Is(u: CodeUnit, c: char) {
    u == c as int
  }

  /** The text goes on with this character. */
  predicate Sees(t: Text, c: char) {
    t != [] && Is(t[0], c)
  }

  predicate StartsWith(t: Text, word: string) {
    |word| <= |t| && forall i :: 0 <= i < |word| ==> Is(t[i], word[i])
  }

  predicate IsSpace(u: CodeUnit) {
    Is(u, ' ') || Is(u, '\t') || Is(u, '\n') || Is(u, '\r')
  }

  function SkipSpace(t: Text): (r: Text)
    ensures |r| <= |t|
  {
    if t != [] && IsSpace(t[0]) then SkipSpace(t[1..]) else t
  }

  // ---------------------------------------------------------------- numbers (section 6)

  predicate IsDigitChar(u: CodeUnit) {
    '0' as int <= u <= '9' as int
  }

  /** How many digits the text starts with. */
  function DigitRun(t: Text): (k: nat)
    ensures k <= |t|
  {
    if t == [] || !IsDigitChar(t[0]) then 0 else 1 + DigitRun(t[1..])
  }

  function DecimalOf(t: Text): int {
    if t == [] then 0 else DecimalOf(t[..|t| - 1]) * 10 + (t[|t| - 1] - '0' as int)
  }

  /** int = zero / ( digit1-9 *DIGIT ) */
  function ReadNat(t: Text): (r: Option<(int, Text)>)
    ensures r.Some? ==> |r.value.1| < |t|
  {
    if t == [] || !IsDigitChar(t[0]) then None
    else if Is(t[0], '0') then Some((0, t[1..]))
    else Some((DecimalOf(t[..DigitRun(t)]), t[DigitRun(t)..]))
  }

  function ReadInt(t: Text): (r: Option<(int, Text)>)
    ensures r.Some? ==> |r.value.1| < |t|
  {
    if Sees(t, '-') then
      var r := ReadNat(t[1..]);
      if r.None? then None else Some((-r.value.0, r.value.1))
    else ReadNat(t)
  }

  // ---------------------------------------------------------------- strings (section 7)

  function HexOf(u: CodeUnit): (d: Option<nat>)
    ensures d.Some? ==> d.value < 16
  {
    if '0' as int <= u <= '9' as int then Some(u - '0' as int)
    else if 'a' as int <= u <= 'f' as int then Some(u - 'a' as int + 10)
    else if 'A' as int <= u <= 'F' as int then Some(u - 'A' as int + 10)
    else None
  }

  /** The unit that the character after a backslash stands for. */
  function Unescaped(u: CodeUnit): Option<CodeUnit> {
    if Is(u, '\"') then Some('\"' as int)
    else if Is(u, '\\') then Some('\\' as int)
    else if Is(u, '/') then Some('/' as int)
    else if Is(u, 'b') then Some(8)
    else if Is(u, 'f') then Some(12)
    else if Is(u, 'n') then Some(10)
    else if Is(u, 'r') then Some(13)
    else if Is(u, 't') then Some(9)
    else None
  }

  /** One character of a string: how many units it takes, and the unit it stands for. */
  function ReadChar(t: Text): (r: Option<(CodeUnit, Text)>)
    ensures r.Some? ==> |r.value.1| < |t|
  {
    if t == [] || Is(t[0], '\"') || t[0] < 0x20 then None
    else if !Is(t[0], '\\') then Some((t[0], t[1..]))
    else if |t| < 2 then None
    else if !Is(t[1], 'u') then
      var u := Unescaped(t[1]);
      if u.None? then None else Some((u.value, t[2..]))
    else if |t| < 6 then None
    else
      var a, b, c, d := HexOf(t[2]), HexOf(t[3]), HexOf(t[4]), HexOf(t[5]);
      if a.None? || b.None? || c.None? || d.None? then None
      else Some((4096 * a.value + 256 * b.value + 16 * c.value + d.value, t[6..]))
  }

  /** The rest of a string, up to its closing quotation mark. */
  function ReadChars(t: Text): (r: Option<(Text, Text)>)
    ensures r.Some? ==> |r.value.1| < |t|
    decreases |t|
  {
    if Sees(t, '\"') then Some(([], t[1..]))
    else
      var first := ReadChar(t);
      if first.None? then None
      else
        var more := ReadChars(first.value.1);
        if more.None? then None else Some(([first.value.0] + more.value.0, more.value.1))
  }

  // ---------------------------------------------------------------- values (sections 3 to 5)

  function ReadValue(t: Text): (r: Option<(Json, Text)>)
    ensures r.Some? ==> |r.value.1| < |t|
    decreases |t|, 0
  {
    var t := SkipSpace(t);
    if StartsWith(t, "null") then Some((Null, t[4..]))
    else if StartsWith(t, "true") then Some((Boolean(true), t[4..]))
    else if StartsWith(t, "false") then Some((Boolean(false), t[5..]))
    else if Sees(t, '\"') then
      var s := ReadChars(t[1..]);
      if s.None? then None else Some((String(s.value.0), s.value.1))
    else if Sees(t, '[') then
      var inside := SkipSpace(t[1..]);
      if Sees(inside, ']') then Some((Array([]), inside[1..]))
      else
        var items := ReadItems(inside);
        if items.None? then None else Some((Array(items.value.0), items.value.1))
    else if Sees(t, '{') then
      var inside := SkipSpace(t[1..]);
      if Sees(inside, '}') then Some((Object([]), inside[1..]))
      else
        var members := ReadMembers(inside);
        if members.None? then None else Some((Object(members.value.0), members.value.1))
    else
      var n := ReadInt(t);
      if n.None? then None else Some((Number(n.value.0), n.value.1))
  }

  /** Items separated by commas, up to the closing bracket. */
  function ReadItems(t: Text): (r: Option<(seq<Json>, Text)>)
    ensures r.Some? ==> |r.value.1| < |t|
    decreases |t|, 1
  {
    var first := ReadValue(t);
    if first.None? then None
    else
      var rest := SkipSpace(first.value.1);
      if Sees(rest, ']') then Some(([first.value.0], rest[1..]))
      else if Sees(rest, ',') then
        var more := ReadItems(rest[1..]);
        if more.None? then None else Some(([first.value.0] + more.value.0, more.value.1))
      else None
  }

  /** Members separated by commas, up to the closing brace. */
  function ReadMembers(t: Text): (r: Option<(seq<Field<Json>>, Text)>)
    ensures r.Some? ==> |r.value.1| < |t|
    decreases |t|, 1
  {
    var member := ReadMember(t);
    if member.None? then None
    else
      var rest := SkipSpace(member.value.1);
      if Sees(rest, '}') then Some(([member.value.0], rest[1..]))
      else if Sees(rest, ',') then
        var more := ReadMembers(rest[1..]);
        if more.None? then None else Some(([member.value.0] + more.value.0, more.value.1))
      else None
  }

  function ReadMember(t: Text): (r: Option<(Field<Json>, Text)>)
    ensures r.Some? ==> |r.value.1| < |t|
    decreases |t|, 0
  {
    var t := SkipSpace(t);
    if !Sees(t, '\"') then None
    else
      var key := ReadChars(t[1..]);
      if key.None? then None
      else
        var colon := SkipSpace(key.value.1);
        if !Sees(colon, ':') then None
        else
          var value := ReadValue(colon[1..]);
          if value.None? then None else Some((Field(key.value.0, value.value.0), value.value.1))
  }

  /** A whole text. */
  function Read(t: Text): Option<Json> {
    var r := ReadValue(t);
    if r.Some? && SkipSpace(r.value.1) == [] then Some(r.value.0) else None
  }
}
