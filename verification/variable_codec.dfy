/** The node's own wire codec, at the level of entries: `serialize` writes
    the variable table as a count followed by (name, value) entries, and
    `deserialize` clears the table and binds every entry in order. The byte
    layout and the value codec's own encoding are not modelled: an entry
    carries the value itself. */
module VariableCodec {
  import opened Wrappers
  import opened CompareFilter

  datatype Entry<V> = Entry(name: string, value: Option<V>)

  /** `es` lists the table `m`: every entry is a binding of `m`, every key of
      `m` appears, and no name appears twice. */
  predicate IsListingOf<V(==)>(es: seq<Entry<V>>, m: map<string, Option<V>>)
  {
    && (forall i :: 0 <= i < |es| ==> es[i].name in m && m[es[i].name] == es[i].value)
    && (forall k :: k in m ==> exists i :: 0 <= i < |es| && es[i].name == k)
    && (forall i, j :: 0 <= i < j < |es| ==> es[i].name != es[j].name)
  }

  /** The table that binding the entries in order produces from an empty
      one: the last entry for a name wins. */
  function TableOf<V(==)>(es: seq<Entry<V>>): map<string, Option<V>>
  {
    if es == [] then map[]
    else
      var e := es[|es| - 1];
      TableOf(es[..|es| - 1])[e.name := e.value]
  }

  /** The values the entries carry. */
  function ValuesOf<V(==)>(es: seq<Entry<V>>): set<Option<V>>
  {
    if es == [] then {}
    else ValuesOf(es[..|es| - 1]) + {es[|es| - 1].value}
  }

  /** A name is bound by `TableOf(es)` exactly when some entry carries it. */
  lemma {:induction false} TableOfKeys<V>(es: seq<Entry<V>>, k: string)
    ensures k in TableOf(es) <==> exists i :: 0 <= i < |es| && es[i].name == k
  {
    if es != [] {
      var n := |es| - 1;
      TableOfKeys(es[..n], k);
      if es[n].name != k && exists i :: 0 <= i < |es| && es[i].name == k {
        var i :| 0 <= i < |es| && es[i].name == k;
        assert es[..n][i].name == k;
      }
    }
  }

  /** The last entry for a name decides its binding in `TableOf(es)`. */
  lemma {:induction false} TableOfLastWins<V>(es: seq<Entry<V>>, i: nat)
    requires i < |es|
    requires forall j :: i < j < |es| ==> es[j].name != es[i].name
    ensures es[i].name in TableOf(es) && TableOf(es)[es[i].name] == es[i].value
  {
    var n := |es| - 1;
    if i < n {
      TableOfLastWins(es[..n], i);
    }
  }

  /** Dropping the last entry of a listing lists the table without its name. */
  lemma ListingOfPrefix<V>(es: seq<Entry<V>>, m: map<string, Option<V>>)
    requires es != [] && IsListingOf(es, m)
    ensures IsListingOf(es[..|es| - 1], m - {es[|es| - 1].name})
  {
  }

  /** Round trip of the table: replaying any listing of `m` rebuilds `m`. */
  lemma {:induction false} TableOfListing<V>(es: seq<Entry<V>>, m: map<string, Option<V>>)
    requires IsListingOf(es, m)
    ensures TableOf(es) == m
  {
    if es == [] {
      assert m.Keys == {};
    } else {
      var n := |es| - 1;
      ListingOfPrefix(es, m);
      TableOfListing(es[..n], m - {es[n].name});
    }
  }

  /** Removing a key removes its value, unless another key shares it. */
  lemma MapValuesSplit<V>(m: map<string, Option<V>>, k: string)
    requires k in m
    ensures m.Values == (m - {k}).Values + {m[k]}
  {
    var m' := m - {k};
    forall v | v in m.Values ensures v in m'.Values + {m[k]} {
      var k' :| k' in m && m[k'] == v;
      if k' != k {
        assert m'[k'] == v;
      }
    }
    forall v | v in m'.Values ensures v in m.Values {
      var k' :| k' in m' && m'[k'] == v;
      assert m[k'] == v;
    }
  }

  /** The entries of a listing of `m` carry exactly the values of `m`. */
  lemma {:induction false} ValuesOfListing<V>(es: seq<Entry<V>>, m: map<string, Option<V>>)
    requires IsListingOf(es, m)
    ensures ValuesOf(es) == m.Values
  {
    if es == [] {
      assert m.Keys == {};
    } else {
      var n := |es| - 1;
      ListingOfPrefix(es, m);
      ValuesOfListing(es[..n], m - {es[n].name});
      MapValuesSplit(m, es[n].name);
    }
  }

  /** `serialize`: the variable count followed by one entry per variable, in
      the table's (unspecified) iteration order. */
  method Serialize<V(==)>(f: Filter<V>) returns (count: nat, es: seq<Entry<V>>)
    ensures count == |f.dynamicVariables| && |es| == count
    ensures IsListingOf(es, f.dynamicVariables)
  {
    var m := f.dynamicVariables;
    var rest := m.Keys;
    es := [];
    while rest != {}
      invariant rest <= m.Keys
      invariant |es| + |rest| == |m.Keys|
      invariant forall i :: 0 <= i < |es| ==> es[i].name in m.Keys - rest && m[es[i].name] == es[i].value
      invariant forall k :: k in m.Keys - rest ==> exists i :: 0 <= i < |es| && es[i].name == k
      invariant forall i, j :: 0 <= i < j < |es| ==> es[i].name != es[j].name
      decreases rest
    {
      var k :| k in rest;
      ghost var prev, prevRest := es, rest;
      es := es + [Entry(k, m[k])];
      rest := rest - {k};
      forall k' | k' in m.Keys - rest ensures exists i :: 0 <= i < |es| && es[i].name == k' {
        if k' == k {
          assert es[|prev|].name == k';
        } else {
          assert k' in m.Keys - prevRest;
          var i :| 0 <= i < |prev| && prev[i].name == k';
          assert es[i].name == k';
        }
      }
    }
    assert m.Keys - rest == m.Keys;
    count := |m|;
  }

  /** `deserialize`: clear the table, then bind every entry in order. The
      binding re-chooses the first condition value each time; only the last
      choice survives, so `pick` is that one: any element of the final set. */
  method Deserialize<V(==)>(f: Filter<V>, es: seq<Entry<V>>, pick: Option<V>) returns (r: Filter<V>)
    requires es != [] ==> pick in f.conditionValues + ValuesOf(es)
    ensures r.dynamicVariables == TableOf(es)
    ensures r.conditionValues == f.conditionValues + ValuesOf(es)
    ensures r.firstCondValue == if es == [] then f.firstCondValue else pick
    ensures r.operator == f.operator && r.column == f.column && r.children == f.children
    ensures Valid(f) ==> Valid(r)
  {
    r := f.(dynamicVariables := map[]);
    var i := 0;
    while i < |es|
      invariant 0 <= i <= |es|
      invariant r.dynamicVariables == TableOf(es[..i])
      invariant r.conditionValues == f.conditionValues + ValuesOf(es[..i])
      invariant i == 0 ==> r.firstCondValue == f.firstCondValue
      invariant i == |es| && es != [] ==> r.firstCondValue == pick
      invariant r.operator == f.operator && r.column == f.column && r.children == f.children
      invariant Valid(f) ==> Valid(r)
    {
      assert es[..i + 1][..i] == es[..i];
      if i == |es| - 1 {
        assert es[..i + 1] == es;
      }
      var p := if i == |es| - 1 then pick else es[i].value;
      r := BindVariable(r, es[i].name, es[i].value, p);
      i := i + 1;
    }
    assert es[..i] == es;
  }

  /** Shipping the variable table from one node to another: whatever order
      `serialize` writes the entries in, the receiver ends with exactly the
      sender's table and every shipped value among its condition values. */
  method Transfer<V(==)>(sender: Filter<V>, receiver: Filter<V>, pick: Option<V>) returns (r: Filter<V>)
    requires sender.dynamicVariables != map[] ==>
               pick in receiver.conditionValues + sender.dynamicVariables.Values
    ensures r.dynamicVariables == sender.dynamicVariables
    ensures r.conditionValues == receiver.conditionValues + sender.dynamicVariables.Values
    ensures r.operator == receiver.operator && r.column == receiver.column
    ensures Valid(receiver) ==> Valid(r)
  {
    var count, es := Serialize(sender);
    TableOfListing(es, sender.dynamicVariables);
    ValuesOfListing(es, sender.dynamicVariables);
    r := Deserialize(receiver, es, pick);
  }
}
