/**
  What canonical texts say about values.  Whatever the key comparison, equal texts mean equal values
  up to key order and undefined fields.  The converse holds where no object, at any depth, has two
  keys that the comparison ties; tied keys, such as canonically equivalent strings under
  localeCompare, print in the order the object lists them.
 */
module CanonicalOrder {
  import opened Wrappers
  import opened JsonText
  import opened StableSort
  import opened CanonicalJson

  ghost predicate TotalOrder(le: Comparison) {
    TotalPreorder(le) && forall a, b :: le(a, b) && le(b, a) ==> a == b
  }

  predicate Defined(f: Field<Json>) {
    !f.value.Undefined?
  }

  /** No object anywhere inside repeats a key. */
  ghost predicate WellFormed(v: Json)
    decreases v
  {
    match v
    case Array(items) => forall x :: x in items ==> WellFormed(x)
    case Object(fields) => DistinctKeys(fields) && forall f :: f in fields ==> WellFormed(f.value)
    case _ => true
  }

  /** Equal up to the order of object keys, undefined fields, and an array of just undefined being empty. */
  ghost predicate Same(v: Json, w: Json)
    decreases v, 1
  {
    match (v, w)
    case (Array(xs), Array(ys)) =>
      if xs == [Undefined] then ys == [] || ys == [Undefined]
      else if ys == [Undefined] then xs == []
      else |xs| == |ys| && forall i :: 0 <= i < |xs| ==> Same(xs[i], ys[i])
    case (Object(fs), Object(gs)) =>
      && (forall f :: f in fs && Defined(f) ==> HasPartner(f, gs))
      && (forall g :: g in gs && Defined(g) ==> IsPartner(fs, g))
    case _ => v == w
  }

  ghost predicate HasPartner(f: Field<Json>, gs: seq<Field<Json>>)
    decreases f, 0
  {
    exists g :: g in gs && Defined(g) && g.key == f.key && Same(f.value, g.value)
  }

  ghost predicate IsPartner(fs: seq<Field<Json>>, g: Field<Json>)
    decreases fs, 0
  {
    exists f :: f in fs && Defined(f) && f.key == g.key && Same(f.value, g.value)
  }

  // ---------------------------------------------------------------- fields of a normal form

  function NormalField(f: Field<Json>, le: Comparison): Field<Json> {
    Field(f.key, Normal(f.value, le))
  }

  lemma {:induction false} NormalFieldsMember(fs: seq<Field<Json>>, le: Comparison, n: Field<Json>)
    ensures n in NormalFields(fs, le) <==> exists f :: f in fs && Defined(f) && n == NormalField(f, le)
  {
    if fs != [] {
      NormalFieldsMember(fs[1..], le, n);
      assert fs == [fs[0]] + fs[1..];
      if n in NormalFields(fs, le) {
        if Defined(fs[0]) && n == NormalField(fs[0], le) {
          assert fs[0] in fs;
        } else {
          var f :| f in fs[1..] && Defined(f) && n == NormalField(f, le);
          assert f in fs;
        }
      }
      if f :| f in fs && Defined(f) && n == NormalField(f, le) {
        assert f == fs[0] || f in fs[1..];
      }
    }
  }

  lemma {:induction false} NormalFieldsDistinct(fs: seq<Field<Json>>, le: Comparison)
    requires DistinctKeys(fs)
    ensures DistinctKeys(NormalFields(fs, le))
  {
    if fs != [] {
      NormalFieldsDistinct(fs[1..], le);
      var rest := NormalFields(fs[1..], le);
      forall i | 0 <= i < |rest| ensures rest[i].key != fs[0].key {
        NormalFieldsMember(fs[1..], le, rest[i]);
        var f :| f in fs[1..] && Defined(f) && rest[i] == NormalField(f, le);
        var k :| 0 <= k < |fs[1..]| && fs[1..][k] == f;
        assert fs[k + 1] == f;
      }
    }
  }

  lemma SameMembersSameMultiset<V>(s: seq<Field<V>>, t: seq<Field<V>>)
    requires DistinctKeys(s) && DistinctKeys(t) && forall f :: f in s <==> f in t
    ensures multiset(s) == multiset(t)
  {
    forall f ensures multiset(s)[f] == multiset(t)[f] {
      OnceOnly(s, f);
      OnceOnly(t, f);
      assert f in s <==> f in multiset(s);
      assert f in t <==> f in multiset(t);
    }
  }

  /** The defined entries of an object. */
  function DefinedFields(fs: seq<Field<Json>>): seq<Field<Json>> {
    if fs == [] then [] else if Defined(fs[0]) then [fs[0]] + DefinedFields(fs[1..]) else DefinedFields(fs[1..])
  }

  lemma {:induction false} DefinedKeys(fs: seq<Field<Json>>, le: Comparison)
    ensures |NormalFields(fs, le)| == |DefinedFields(fs)|
    ensures forall i :: 0 <= i < |DefinedFields(fs)| ==> NormalFields(fs, le)[i].key == DefinedFields(fs)[i].key
  {
    if fs != [] {
      DefinedKeys(fs[1..], le);
    }
  }

  /** No object anywhere inside has two defined keys that the comparison ties. */
  ghost predicate Untied(v: Json, le: Comparison)
    decreases v
  {
    match v
    case Array(items) => forall x :: x in items ==> Untied(x, le)
    case Object(fields) => NoTies(DefinedFields(fields), le) && forall f :: f in fields ==> Untied(f.value, le)
    case _ => true
  }

  /** Equal sorted forms have the same fields, whatever the comparison. */
  lemma SortedFormsShareFields(s: seq<Field<Json>>, t: seq<Field<Json>>, le: Comparison)
    requires Sort(s, le) == Sort(t, le)
    ensures forall f :: f in s <==> f in t
  {
    SortMembers(s, le);
    SortMembers(t, le);
    forall f ensures f in s <==> f in t {
      assert f in multiset(s) <==> f in multiset(t);
    }
  }

  /** The same fields, without ties, have one sorted form. */
  lemma SharedFieldsSortAlike(s: seq<Field<Json>>, t: seq<Field<Json>>, le: Comparison)
    requires TotalPreorder(le) && DistinctKeys(s) && DistinctKeys(t) && NoTies(s, le)
    requires forall f :: f in s <==> f in t
    ensures Sort(s, le) == Sort(t, le)
  {
    SameMembersSameMultiset(s, t);
    SortMembers(s, le);
    SortMembers(t, le);
    SortSorted(s, le);
    SortSorted(t, le);
    NoTiesKept(s, Sort(s, le), le);
    SortedUnique(Sort(s, le), Sort(t, le), le);
  }

  // ---------------------------------------------------------------- same normal form, same value

  /** Equal normal forms come from equal values: no assumption on the comparison or on the values. */
  lemma {:induction false} NormalEqualIsSame(v: Json, w: Json, le: Comparison)
    requires Normal(v, le) == Normal(w, le)
    ensures Same(v, w)
    decreases v
  {
    match (v, w)
    case (Array(xs), Array(ys)) =>
      NormalItemsAreNormal(xs, le);
      NormalItemsAreNormal(ys, le);
      if xs != [Undefined] && ys != [Undefined] {
        assert NormalItems(xs, le) == NormalItems(ys, le);
        NormalItemsAt(xs, le);
        NormalItemsAt(ys, le);
        forall i | 0 <= i < |xs| ensures Same(xs[i], ys[i]) {
          NormalEqualIsSame(xs[i], ys[i], le);
        }
      }
    case (Object(fs), Object(gs)) =>
      forall f, g | f in fs && g in gs && Normal(f.value, le) == Normal(g.value, le) ensures Same(f.value, g.value) {
        NormalEqualIsSame(f.value, g.value, le);
      }
      SortedFormsShareFields(NormalFields(fs, le), NormalFields(gs, le), le);
      SharedFieldsAreSame(fs, gs, le);
    case _ =>
  }

  /** Without ties, equal values have equal normal forms. */
  lemma {:induction false} SameIsNormalEqual(v: Json, w: Json, le: Comparison)
    requires TotalPreorder(le) && WellFormed(v) && WellFormed(w) && Untied(v, le) && Same(v, w)
    ensures Normal(v, le) == Normal(w, le)
    decreases v
  {
    match (v, w)
    case (Array(xs), Array(ys)) =>
      if xs != [Undefined] && ys != [Undefined] {
        NormalItemsAt(xs, le);
        NormalItemsAt(ys, le);
        forall i | 0 <= i < |xs| ensures Normal(xs[i], le) == Normal(ys[i], le) {
          SameIsNormalEqual(xs[i], ys[i], le);
        }
        assert NormalItems(xs, le) == NormalItems(ys, le);
      }
    case (Object(fs), Object(gs)) =>
      forall f, g | f in fs && g in gs && Same(f.value, g.value) ensures Normal(f.value, le) == Normal(g.value, le) {
        SameIsNormalEqual(f.value, g.value, le);
      }
      NormalFieldsDistinct(fs, le);
      NormalFieldsDistinct(gs, le);
      DefinedKeys(fs, le);
      SameSharesFields(fs, gs, le);
      SharedFieldsSortAlike(NormalFields(fs, le), NormalFields(gs, le), le);
    case _ =>
  }

  lemma {:induction false} NormalItemsAt(xs: seq<Json>, le: Comparison)
    ensures forall i :: 0 <= i < |xs| ==> NormalItems(xs, le)[i] == Normal(xs[i], le)
  {
    if xs != [] {
      NormalItemsAt(xs[1..], le);
    }
  }

  ghost predicate Matches(f: Field<Json>, gs: seq<Field<Json>>, le: Comparison) {
    NormalField(f, le) in NormalFields(gs, le)
  }

  ghost predicate AllMatch(fs: seq<Field<Json>>, gs: seq<Field<Json>>, le: Comparison) {
    forall f :: f in fs && Defined(f) ==> Matches(f, gs, le)
  }

  /** For the values of these fields, the same normal form means the same value. */
  ghost predicate NormalGivesSame(fs: seq<Field<Json>>, gs: seq<Field<Json>>, le: Comparison) {
    forall f, g :: f in fs && g in gs && Normal(f.value, le) == Normal(g.value, le) ==> Same(f.value, g.value)
  }

  /** For the values of these fields, the same value means the same normal form. */
  ghost predicate SameGivesNormal(fs: seq<Field<Json>>, gs: seq<Field<Json>>, le: Comparison) {
    forall f, g :: f in fs && g in gs && Same(f.value, g.value) ==> Normal(f.value, le) == Normal(g.value, le)
  }

  lemma SharedFieldsAreSame(fs: seq<Field<Json>>, gs: seq<Field<Json>>, le: Comparison)
    requires NormalGivesSame(fs, gs, le)
    requires forall n :: n in NormalFields(fs, le) <==> n in NormalFields(gs, le)
    ensures Same(Object(fs), Object(gs))
  {
    hide Matches, NormalGivesSame, HasPartner, IsPartner, NormalFields;
    IncludedExactly(fs, gs, le);
    IncludedExactly(gs, fs, le);
    forall f | f in fs && Defined(f) ensures HasPartner(f, gs) {
      MatchedHasPartner(f, fs, gs, le);
    }
    forall g | g in gs && Defined(g) ensures IsPartner(fs, g) {
      MatchedIsPartner(g, fs, gs, le);
    }
  }

  lemma MatchedHasPartner(f: Field<Json>, fs: seq<Field<Json>>, gs: seq<Field<Json>>, le: Comparison)
    requires NormalGivesSame(fs, gs, le) && f in fs && Matches(f, gs, le)
    ensures HasPartner(f, gs)
  {
    hide Matches;
    var g := FindPartner(f, gs, le);
    assert Same(f.value, g.value);
  }

  lemma MatchedIsPartner(g: Field<Json>, fs: seq<Field<Json>>, gs: seq<Field<Json>>, le: Comparison)
    requires NormalGivesSame(fs, gs, le) && g in gs && Matches(g, fs, le)
    ensures IsPartner(fs, g)
  {
    hide Matches;
    var f := FindPartner(g, fs, le);
    assert Same(f.value, g.value);
  }

  lemma SameSharesFields(fs: seq<Field<Json>>, gs: seq<Field<Json>>, le: Comparison)
    requires SameGivesNormal(fs, gs, le) && Same(Object(fs), Object(gs))
    ensures forall n :: n in NormalFields(fs, le) <==> n in NormalFields(gs, le)
  {
    hide Matches, SameGivesNormal, HasPartner, IsPartner, NormalFields;
    IncludedExactly(fs, gs, le);
    IncludedExactly(gs, fs, le);
    forall f | f in fs && Defined(f) ensures Matches(f, gs, le) {
      PartnerIsMatched(f, fs, gs, le);
    }
    forall g | g in gs && Defined(g) ensures Matches(g, fs, le) {
      PartnerIsMatchedBack(g, fs, gs, le);
    }
  }

  lemma PartnerIsMatched(f: Field<Json>, fs: seq<Field<Json>>, gs: seq<Field<Json>>, le: Comparison)
    requires SameGivesNormal(fs, gs, le) && f in fs && HasPartner(f, gs)
    ensures Matches(f, gs, le)
  {
    hide Matches;
    var g :| g in gs && Defined(g) && g.key == f.key && Same(f.value, g.value);
    PartnerMatches(f, g, gs, le);
  }

  lemma PartnerIsMatchedBack(g: Field<Json>, fs: seq<Field<Json>>, gs: seq<Field<Json>>, le: Comparison)
    requires SameGivesNormal(fs, gs, le) && g in gs && IsPartner(fs, g)
    ensures Matches(g, fs, le)
  {
    hide Matches;
    var f :| f in fs && Defined(f) && f.key == g.key && Same(f.value, g.value);
    PartnerMatches(g, f, fs, le);
  }

  lemma PartnerMatches(f: Field<Json>, g: Field<Json>, gs: seq<Field<Json>>, le: Comparison)
    requires g in gs && Defined(g) && NormalField(g, le) == NormalField(f, le)
    ensures Matches(f, gs, le)
  {
    NormalFieldsMember(gs, le, NormalField(f, le));
  }

  lemma FindPartner(f: Field<Json>, gs: seq<Field<Json>>, le: Comparison) returns (g: Field<Json>)
    requires Matches(f, gs, le)
    ensures g in gs && Defined(g) && g.key == f.key && Normal(g.value, le) == Normal(f.value, le)
  {
    NormalFieldsMember(gs, le, NormalField(f, le));
    g :| g in gs && Defined(g) && NormalField(f, le) == NormalField(g, le);
  }

  lemma IncludedExactly(fs: seq<Field<Json>>, gs: seq<Field<Json>>, le: Comparison)
    ensures (forall n :: n in NormalFields(fs, le) ==> n in NormalFields(gs, le))
      <==> AllMatch(fs, gs, le)
  {
    forall f | f in fs && Defined(f) ensures NormalField(f, le) in NormalFields(fs, le) {
      NormalFieldsMember(fs, le, NormalField(f, le));
    }
    if AllMatch(fs, gs, le) {
      forall n | n in NormalFields(fs, le) ensures n in NormalFields(gs, le) {
        NormalFieldsMember(fs, le, n);
        var f :| f in fs && Defined(f) && n == NormalField(f, le);
        assert Matches(f, gs, le);
      }
    }
  }

  // ---------------------------------------------------------------- what equal texts mean

  /** Equal texts come from values that are equal up to key order and undefined fields, whatever the
      comparison sorts by. */
  lemma EqualTextsAreSame(v: Json, w: Json, le: Comparison)
    requires CanonicalText(v, le) == CanonicalText(w, le)
    ensures Same(v, w)
  {
    EqualTextsExactly(v, w, le);
    NormalEqualIsSame(v, w, le);
  }

  /** Where no object inside v ties two keys, the text of v is that of exactly the values equal to v up
      to key order and undefined fields. */
  lemma UntiedTextExactly(v: Json, w: Json, le: Comparison)
    requires TotalPreorder(le) && WellFormed(v) && WellFormed(w) && Untied(v, le)
    ensures CanonicalText(v, le) == CanonicalText(w, le) <==> Same(v, w)
  {
    EqualTextsExactly(v, w, le);
    if Same(v, w) {
      SameIsNormalEqual(v, w, le);
    } else if Normal(v, le) == Normal(w, le) {
      NormalEqualIsSame(v, w, le);
    }
  }

  /** A total order ties no keys at all. */
  lemma {:induction false} TotalOrderUnties(v: Json, le: Comparison)
    requires TotalOrder(le) && WellFormed(v)
    ensures Untied(v, le)
    decreases v
  {
    match v
    case Array(items) =>
      forall x | x in items ensures Untied(x, le) {
        TotalOrderUnties(x, le);
      }
    case Object(fields) =>
      DefinedKeys(fields, le);
      NormalFieldsDistinct(fields, le);
      forall f | f in fields ensures Untied(f.value, le) {
        TotalOrderUnties(f.value, le);
      }
    case _ =>
  }

  /**
    With any comparison that is a total order on keys, two values have the same text exactly when
    they are equal up to key order and undefined fields.
   */
  lemma SameTextExactly(v: Json, w: Json, le: Comparison)
    requires TotalOrder(le) && WellFormed(v) && WellFormed(w)
    ensures CanonicalText(v, le) == CanonicalText(w, le) <==> Same(v, w)
  {
    TotalOrderUnties(v, le);
    UntiedTextExactly(v, w, le);
  }

  // ---------------------------------------------------------------- when key order shows

  lemma {:induction false} ReverseMembers<V>(s: seq<V>)
    ensures multiset(Reverse(s)) == multiset(s)
  {
    if s != [] {
      ReverseMembers(s[1..]);
      assert Reverse(s) == Reverse(s[1..]) + [s[0]];
      assert s == [s[0]] + s[1..];
    }
  }

  lemma {:induction false} DefinedReversed(fs: seq<Field<Json>>)
    ensures DefinedFields(Reverse(fs)) == Reverse(DefinedFields(fs))
  {
    if fs != [] {
      DefinedReversed(fs[1..]);
      assert Reverse(fs) == Reverse(fs[1..]) + [fs[0]];
      DefinedAppend(Reverse(fs[1..]), fs[0]);
    }
  }

  lemma {:induction false} DefinedAppend(fs: seq<Field<Json>>, f: Field<Json>)
    ensures DefinedFields(fs + [f]) == DefinedFields(fs) + if Defined(f) then [f] else []
  {
    if fs == [] {
      assert [f][1..] == [] && [] + [f] == [f];
    } else {
      DefinedAppend(fs[1..], f);
      assert (fs + [f])[1..] == fs[1..] + [f];
    }
  }

  /** Tied keys print in the order the object lists them. */
  lemma TiedKeysShowTheirOrder(fs: seq<Field<Json>>, le: Comparison, i: nat, j: nat)
    requires DistinctKeys(fs) && i < j < |DefinedFields(fs)|
    requires le(DefinedFields(fs)[i].key, DefinedFields(fs)[j].key) && le(DefinedFields(fs)[j].key, DefinedFields(fs)[i].key)
    ensures CanonicalText(Object(fs), le) != CanonicalText(Object(Reverse(fs)), le)
  {
    hide Before, DistinctKeys, NormalFields, DefinedFields, CanonicalText, Reverse;
    var a, b := DefinedFields(fs)[i].key, DefinedFields(fs)[j].key;
    NormalFieldsDistinct(fs, le);
    ListedBefore(fs, le, i, j);
    ReversedBefore(fs, le, i, j);
    TiedOrdersDiffer(NormalFields(fs, le), NormalFields(Reverse(fs), le), le, a, b);
    EqualTextsExactly(Object(fs), Object(Reverse(fs)), le);
  }

  lemma ReversedBefore(fs: seq<Field<Json>>, le: Comparison, i: nat, j: nat)
    requires i < j < |DefinedFields(fs)|
    ensures Before(NormalFields(Reverse(fs), le), DefinedFields(fs)[j].key, DefinedFields(fs)[i].key)
  {
    hide NormalFields, Before, DefinedFields;
    var d := DefinedFields(fs);
    DefinedReversed(fs);
    ListedBefore(Reverse(fs), le, |d| - 1 - j, |d| - 1 - i);
  }

  lemma ListedBefore(fs: seq<Field<Json>>, le: Comparison, i: nat, j: nat)
    requires i < j < |DefinedFields(fs)|
    ensures Before(NormalFields(fs, le), DefinedFields(fs)[i].key, DefinedFields(fs)[j].key)
  {
    DefinedKeys(fs, le);
  }

  lemma TiedOrdersDiffer(s: seq<Field<Json>>, t: seq<Field<Json>>, le: Comparison, a: Text, b: Text)
    requires DistinctKeys(s) && Before(s, a, b) && Before(t, b, a) && le(a, b) && le(b, a)
    ensures Sort(s, le) != Sort(t, le)
  {
    SortStable(s, le, a, b);
    SortStable(t, le, b, a);
    SortMembers(s, le);
    KeysStayDistinct(s, Sort(s, le));
    BeforeOneWay(Sort(s, le), a, b);
  }

  lemma {:induction false} SameReflexive(v: Json)
    ensures Same(v, v)
    decreases v
  {
    match v
    case Array(xs) =>
      forall i | 0 <= i < |xs| ensures Same(xs[i], xs[i]) {
        SameReflexive(xs[i]);
      }
    case Object(fs) =>
      forall f | f in fs ensures Same(f.value, f.value) {
        SameReflexive(f.value);
      }
      ReorderedIsSame(fs, fs);
    case _ =>
  }

  lemma ReorderedIsSame(fs: seq<Field<Json>>, gs: seq<Field<Json>>)
    requires forall f :: f in fs <==> f in gs
    requires forall f :: f in fs ==> Same(f.value, f.value)
    ensures Same(Object(fs), Object(gs))
  {
    forall f | f in fs && Defined(f) ensures HasPartner(f, gs) && IsPartner(fs, f) {
      assert Same(f.value, f.value);
    }
  }

  /** A tie somewhere inside v shows: some value equal to v up to key order has another text. */
  lemma {:induction false} TieShows(v: Json, le: Comparison) returns (w: Json)
    requires WellFormed(v) && !Untied(v, le)
    ensures WellFormed(w) && Same(v, w) && Normal(v, le) != Normal(w, le)
    decreases v
  {
    match v
    case Array(xs) =>
      var x :| x in xs && !Untied(x, le);
      var i :| 0 <= i < |xs| && xs[i] == x;
      var y := TieShows(x, le);
      w := ItemReplaced(xs, i, y, le);
    case Object(fs) =>
      if NoTies(DefinedFields(fs), le) {
        var f :| f in fs && !Untied(f.value, le);
        var i :| 0 <= i < |fs| && fs[i] == f;
        var y := TieShows(f.value, le);
        w := FieldReplaced(fs, i, y, le);
      } else {
        var d := DefinedFields(fs);
        var i, j :| 0 <= i < j < |d| && le(d[i].key, d[j].key) && le(d[j].key, d[i].key);
        TiedKeysShowTheirOrder(fs, le, i, j);
        w := Object(Reverse(fs));
        ReversedIsSame(fs);
        EqualTextsExactly(v, w, le);
      }
  }

  lemma ReversedIsSame(fs: seq<Field<Json>>)
    requires WellFormed(Object(fs))
    ensures WellFormed(Object(Reverse(fs))) && Same(Object(fs), Object(Reverse(fs)))
  {
    var gs := Reverse(fs);
    ReverseMembers(fs);
    KeysStayDistinct(fs, gs);
    forall f ensures f in fs <==> f in gs {
      assert f in multiset(fs) <==> f in multiset(gs);
    }
    forall f | f in fs ensures Same(f.value, f.value) {
      SameReflexive(f.value);
    }
    ReorderedIsSame(fs, gs);
  }

  lemma ItemReplaced(xs: seq<Json>, i: nat, y: Json, le: Comparison) returns (w: Json)
    requires i < |xs| && WellFormed(Array(xs)) && WellFormed(y)
    requires Same(xs[i], y) && Normal(xs[i], le) != Normal(y, le)
    ensures WellFormed(w) && Same(Array(xs), w) && Normal(Array(xs), le) != Normal(w, le)
  {
    var ys := xs[i := y];
    w := Array(ys);
    forall j | 0 <= j < |xs| ensures Same(xs[j], ys[j]) {
      SameReflexive(xs[j]);
    }
    assert !xs[i].Undefined? && !y.Undefined?;
    NormalItemsAt(xs, le);
    NormalItemsAt(ys, le);
    assert xs != [Undefined] && ys != [Undefined];
  }

  lemma FieldReplaced(fs: seq<Field<Json>>, i: nat, y: Json, le: Comparison) returns (w: Json)
    requires i < |fs| && WellFormed(Object(fs)) && WellFormed(y)
    requires Same(fs[i].value, y) && Normal(fs[i].value, le) != Normal(y, le)
    ensures WellFormed(w) && Same(Object(fs), w) && Normal(Object(fs), le) != Normal(w, le)
  {
    var g := Field(fs[i].key, y);
    w := Object(fs[i := g]);
    assert Defined(fs[i]) && Defined(g);
    ReplacedIsSame(fs, i, g);
    ReplacedShows(fs, i, g, le);
  }

  lemma ReplacedIsSame(fs: seq<Field<Json>>, i: nat, g: Field<Json>)
    requires i < |fs| && WellFormed(Object(fs)) && WellFormed(g.value) && Defined(fs[i]) && Defined(g)
    requires g.key == fs[i].key && Same(fs[i].value, g.value)
    ensures WellFormed(Object(fs[i := g])) && Same(Object(fs), Object(fs[i := g]))
  {
    var gs := fs[i := g];
    forall j | 0 <= j < |fs| && Defined(fs[j]) ensures HasPartner(fs[j], gs) && IsPartner(fs, gs[j]) {
      SameReflexive(fs[j].value);
      assert gs[j] in gs && fs[j] in fs && Same(fs[j].value, gs[j].value);
    }
  }

  lemma ReplacedShows(fs: seq<Field<Json>>, i: nat, g: Field<Json>, le: Comparison)
    requires i < |fs| && DistinctKeys(fs) && Defined(fs[i]) && Defined(g)
    requires g.key == fs[i].key && Normal(fs[i].value, le) != Normal(g.value, le)
    ensures Normal(Object(fs), le) != Normal(Object(fs[i := g]), le)
  {
    hide DistinctKeys, NormalFields, Sort;
    var gs := fs[i := g];
    assert gs[i] == g;
    if Sort(NormalFields(fs, le), le) == Sort(NormalFields(gs, le), le) {
      NormalFieldsMember(fs, le, NormalField(fs[i], le));
      NormalFieldsMember(gs, le, NormalField(g, le));
      SortedFormsShareFields(NormalFields(fs, le), NormalFields(gs, le), le);
      NormalFieldsDistinct(fs, le);
      SameKeySameField(NormalFields(fs, le), NormalField(fs[i], le), NormalField(g, le));
    }
  }

  /**
    The text of a value is the same for every value equal to it up to key order and undefined fields
    exactly when no object anywhere inside ties two defined keys.
   */
  lemma OrderInvisibleExactly(v: Json, le: Comparison)
    requires TotalPreorder(le) && WellFormed(v)
    ensures (forall w :: WellFormed(w) && Same(v, w) ==> CanonicalText(w, le) == CanonicalText(v, le)) <==> Untied(v, le)
  {
    if Untied(v, le) {
      forall w | WellFormed(w) && Same(v, w) ensures CanonicalText(w, le) == CanonicalText(v, le) {
        UntiedTextExactly(v, w, le);
      }
    } else {
      var w := TieShows(v, le);
      EqualTextsExactly(v, w, le);
    }
  }

  /** The letter e with an acute accent, as one code unit and as two. */
  const COMPOSED: Text := [0xE9]
  const DECOMPOSED: Text := [0x65, 0x301]

  /** A comparison that ties these two spellings, as canonically equivalent strings require, gives two
      texts for one object, one per order of its entries. */
  lemma EquivalentKeysShow(le: Comparison)
    requires le(COMPOSED, DECOMPOSED) && le(DECOMPOSED, COMPOSED)
    ensures
      var v := Object([Field(COMPOSED, Null), Field(DECOMPOSED, Null)]);
      var w := Object([Field(DECOMPOSED, Null), Field(COMPOSED, Null)]);
      WellFormed(v) && WellFormed(w) && Same(v, w) && CanonicalText(v, le) != CanonicalText(w, le)
  {
    hide CanonicalText;
    var a, b := Field(COMPOSED, Null), Field(DECOMPOSED, Null);
    var fs := [a, b];
    assert |COMPOSED| != |DECOMPOSED|;
    assert fs[1..] == [b] && [b][1..] == [];
    assert DefinedFields([b]) == [b] + DefinedFields([]);
    assert DefinedFields(fs) == [a] + [b];
    assert Reverse(fs) == [b, a];
    ReversedIsSame(fs);
    TiedKeysShowTheirOrder(fs, le, 0, 1);
  }

  lemma NoTiesKept(s: seq<Field<Json>>, t: seq<Field<Json>>, le: Comparison)
    requires NoTies(s, le) && multiset(s) == multiset(t) && TotalPreorder(le)
    ensures NoTies(t, le)
  {
    assert DistinctKeys(s);
    KeysStayDistinct(s, t);
    forall i, j | 0 <= i < j < |t| ensures !(le(t[i].key, t[j].key) && le(t[j].key, t[i].key)) {
      assert t[i] in multiset(s) && t[j] in multiset(s);
      var p :| 0 <= p < |s| && s[p] == t[i];
      var q :| 0 <= q < |s| && s[q] == t[j];
      assert p != q;
    }
  }
}
