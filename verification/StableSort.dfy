/**
  Sorting fields by key, as Array.prototype.sort does with a comparison of keys: the stable sorted
  order, where keys the comparison cannot tell apart keep their order.
 */
module StableSort {
  import opened JsonText

  datatype Field<+V> = Field(key: Text, value: V)

  /** compare(left, right) <= 0 */
  type Comparison = (Text, Text) -> bool

  ghost predicate TotalPreorder(le: Comparison) {
    && (forall a, b :: le(a, b) || le(b, a))
    && (forall a, b, c :: le(a, b) && le(b, c) ==> le(a, c))
  }

  function Insert<V>(f: Field<V>, s: seq<Field<V>>, le: Comparison): seq<Field<V>> {
    if s == [] || le(f.key, s[0].key) then [f] + s else [s[0]] + Insert(f, s[1..], le)
  }

  function Sort<V>(s: seq<Field<V>>, le: Comparison): seq<Field<V>> {
    if s == [] then [] else Insert(s[0], Sort(s[1..], le), le)
  }

  ghost predicate Sorted<V>(s: seq<Field<V>>, le: Comparison) {
    forall i, j :: 0 <= i < j < |s| ==> le(s[i].key, s[j].key)
  }

  ghost predicate DistinctKeys<V>(s: seq<Field<V>>) {
    forall i, j :: 0 <= i < j < |s| ==> s[i].key != s[j].key
  }

  /** Key a stands somewhere before key b. */
  ghost predicate Before<V>(s: seq<Field<V>>, a: Text, b: Text) {
    exists i, j :: 0 <= i < j < |s| && s[i].key == a && s[j].key == b
  }

  ghost predicate HasKey<V>(s: seq<Field<V>>, a: Text) {
    exists i :: 0 <= i < |s| && s[i].key == a
  }

  lemma {:induction false} InsertMembers<V>(f: Field<V>, s: seq<Field<V>>, le: Comparison)
    ensures multiset(Insert(f, s, le)) == multiset{f} + multiset(s)
  {
    if s != [] && !le(f.key, s[0].key) {
      InsertMembers(f, s[1..], le);
      assert s == [s[0]] + s[1..];
    }
  }

  /** Sorting keeps exactly the same fields. */
  lemma {:induction false} SortMembers<V>(s: seq<Field<V>>, le: Comparison)
    ensures multiset(Sort(s, le)) == multiset(s)
  {
    if s != [] {
      SortMembers(s[1..], le);
      InsertMembers(s[0], Sort(s[1..], le), le);
      assert s == [s[0]] + s[1..];
    }
  }

  lemma {:induction false} InsertSorted<V>(f: Field<V>, s: seq<Field<V>>, le: Comparison)
    requires TotalPreorder(le) && Sorted(s, le)
    ensures Sorted(Insert(f, s, le), le)
  {
    if s == [] {
    } else if le(f.key, s[0].key) {
      assert forall j :: 0 < j < |s| ==> le(s[0].key, s[j].key);
    } else {
      InsertSorted(f, s[1..], le);
      InsertMembers(f, s[1..], le);
      var r := Insert(f, s[1..], le);
      forall j | 0 <= j < |r| ensures le(s[0].key, r[j].key) {
        assert r[j] in multiset(r);
        if r[j] != f {
          assert r[j] in s[1..];
          var k :| 0 <= k < |s[1..]| && s[1..][k] == r[j];
          assert le(s[0].key, s[k + 1].key);
        }
      }
    }
  }

  lemma {:induction false} SortSorted<V>(s: seq<Field<V>>, le: Comparison)
    requires TotalPreorder(le)
    ensures Sorted(Sort(s, le), le)
  {
    if s != [] {
      SortSorted(s[1..], le);
      InsertSorted(s[0], Sort(s[1..], le), le);
    }
  }

  /** Keys the comparison puts no further apart than le keep their order. */
  lemma {:induction false} SortStable<V>(s: seq<Field<V>>, le: Comparison, a: Text, b: Text)
    requires Before(s, a, b) && le(a, b)
    ensures Before(Sort(s, le), a, b)
  {
    var i, j :| 0 <= i < j < |s| && s[i].key == a && s[j].key == b;
    var rest := Sort(s[1..], le);
    SortMembers(s[1..], le);
    if i == 0 {
      assert s[1..][j - 1] in multiset(s[1..]);
      assert s[j] in rest;
      var k :| 0 <= k < |rest| && rest[k] == s[j];
      InsertBefore(s[0], rest, le, b);
    } else {
      assert s[1..][i - 1].key == a && s[1..][j - 1].key == b;
      SortStable(s[1..], le, a, b);
      InsertKeeps(s[0], rest, le, a, b);
    }
  }

  lemma {:induction false} InsertBefore<V>(f: Field<V>, s: seq<Field<V>>, le: Comparison, b: Text)
    requires HasKey(s, b) && le(f.key, b)
    ensures Before(Insert(f, s, le), f.key, b)
  {
    var k :| 0 <= k < |s| && s[k].key == b;
    if le(f.key, s[0].key) {
      assert ([f] + s)[0] == f && ([f] + s)[k + 1].key == b;
    } else {
      assert s[1..][k - 1].key == b;
      InsertBefore(f, s[1..], le, b);
      var r := Insert(f, s[1..], le);
      var i, j :| 0 <= i < j < |r| && r[i].key == f.key && r[j].key == b;
      assert ([s[0]] + r)[i + 1] == r[i] && ([s[0]] + r)[j + 1] == r[j];
    }
  }

  lemma {:induction false} InsertKeeps<V>(f: Field<V>, s: seq<Field<V>>, le: Comparison, a: Text, b: Text)
    requires Before(s, a, b)
    ensures Before(Insert(f, s, le), a, b)
  {
    var i, j :| 0 <= i < j < |s| && s[i].key == a && s[j].key == b;
    if le(f.key, s[0].key) {
      TailBefore(f, s, a, b);
    } else {
      var r := Insert(f, s[1..], le);
      assert Insert(f, s, le) == [s[0]] + r;
      hide Insert, Before;
      if i == 0 {
        InsertMembers(f, s[1..], le);
        assert s[1..][j - 1] in multiset(s[1..]);
        assert s[j] in multiset(r);
        HeadBefore(s[0], r, s[j]);
      } else {
        assert s[1..][i - 1].key == a && s[1..][j - 1].key == b;
        InsertKeeps(f, s[1..], le, a, b);
        TailBefore(s[0], r, a, b);
      }
    }
  }

  lemma HeadBefore<V>(f: Field<V>, r: seq<Field<V>>, g: Field<V>)
    requires g in r
    ensures Before([f] + r, f.key, g.key)
  {
    var k :| 0 <= k < |r| && r[k] == g;
    assert ([f] + r)[0] == f && ([f] + r)[k + 1] == g;
  }

  lemma TailBefore<V>(f: Field<V>, r: seq<Field<V>>, a: Text, b: Text)
    requires Before(r, a, b)
    ensures Before([f] + r, a, b)
  {
    var i, j :| 0 <= i < j < |r| && r[i].key == a && r[j].key == b;
    assert ([f] + r)[i + 1] == r[i] && ([f] + r)[j + 1] == r[j];
  }

  lemma BeforeOneWay<V>(s: seq<Field<V>>, a: Text, b: Text)
    requires DistinctKeys(s) && Before(s, a, b)
    ensures !Before(s, b, a)
  {
  }

  lemma SameKeySameField<V>(s: seq<Field<V>>, f: Field<V>, g: Field<V>)
    requires DistinctKeys(s) && f in s && g in s && f.key == g.key
    ensures f == g
  {
  }

  /** Distinct keys stay distinct in any rearrangement. */
  lemma KeysStayDistinct<V>(s: seq<Field<V>>, t: seq<Field<V>>)
    requires DistinctKeys(s) && multiset(s) == multiset(t)
    ensures DistinctKeys(t)
  {
    forall i, j | 0 <= i < j < |t| ensures t[i].key != t[j].key {
      assert t[i] in multiset(t) && t[j] in multiset(t);
      if t[i].key == t[j].key {
        SameKeySameField(s, t[i], t[j]);
        OnceOnly(s, t[i]);
        TwiceCounted(t, i, j);
      }
    }
  }

  lemma TwiceCounted<V>(t: seq<Field<V>>, i: nat, j: nat)
    requires i < j < |t| && t[i] == t[j]
    ensures multiset(t)[t[i]] >= 2
  {
    assert t == t[..j] + [t[j]] + t[j + 1..];
    assert t[..j][i] in multiset(t[..j]);
  }

  lemma {:induction false} OnceOnly<V>(s: seq<Field<V>>, f: Field<V>)
    requires DistinctKeys(s)
    ensures multiset(s)[f] <= 1
  {
    if s != [] {
      assert s == [s[0]] + s[1..];
      OnceOnly(s[1..], f);
      forall k | 0 <= k < |s[1..]| ensures s[1..][k] != s[0] {
        assert s[0].key != s[k + 1].key;
      }
    }
  }

  ghost predicate NoTies<V>(s: seq<Field<V>>, le: Comparison) {
    forall i, j :: 0 <= i < j < |s| ==> !(le(s[i].key, s[j].key) && le(s[j].key, s[i].key))
  }

  /** With no ties there is only one sorted arrangement. */
  lemma {:induction false} SortedUnique<V>(s: seq<Field<V>>, t: seq<Field<V>>, le: Comparison)
    requires TotalPreorder(le) && Sorted(s, le) && Sorted(t, le) && NoTies(s, le) && multiset(s) == multiset(t)
    ensures s == t
  {
    assert |s| == |multiset(s)| == |multiset(t)| == |t|;
    if s != [] {
      SameLeast(s, t, le);
      TailMembers(s);
      TailMembers(t);
      TailOrder(s, le);
      TailOrder(t, le);
      hide Sorted, NoTies, TotalPreorder;
      SortedUnique(s[1..], t[1..], le);
    }
  }

  lemma TailMembers<V>(s: seq<V>)
    requires s != []
    ensures s == [s[0]] + s[1..] && multiset(s[1..]) == multiset(s) - multiset{s[0]}
  {
    assert s == [s[0]] + s[1..];
  }

  lemma TailOrder<V>(s: seq<Field<V>>, le: Comparison)
    requires s != []
    ensures Sorted(s, le) ==> Sorted(s[1..], le)
    ensures NoTies(s, le) ==> NoTies(s[1..], le)
  {
  }

  lemma SameLeast<V>(s: seq<Field<V>>, t: seq<Field<V>>, le: Comparison)
    requires TotalPreorder(le) && Sorted(s, le) && Sorted(t, le) && NoTies(s, le) && multiset(s) == multiset(t)
    requires s != [] && t != []
    ensures s[0] == t[0]
  {
    assert s[0] in multiset(t) && t[0] in multiset(s);
    var i :| 0 <= i < |t| && t[i] == s[0];
    var j :| 0 <= j < |s| && s[j] == t[0];
    assert le(t[0].key, t[i].key);
    assert le(s[0].key, s[j].key);
  }
}
