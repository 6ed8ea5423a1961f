/** The regrouping done by `Board::findSymbolPairs`: symbols are collected in
    a `std::map<char, std::vector<Symbol>>` and written back group after
    group, in ascending character order. */
module SymbolGroups {
  import opened CharOrder
  import opened Symbols

  /** The symbols of value `v`, in their order in `s`. */
  function Filter(s: seq<Symbol>, v: char): (r: seq<Symbol>)
    ensures forall x :: x in r ==> x.value == v
  {
    if s == [] then []
    else Filter(s[..|s| - 1], v) + (if s[|s| - 1].value == v then [s[|s| - 1]] else [])
  }

  /** The keys of the map built from `s`. */
  function Values(s: seq<Symbol>): set<char>
  {
    set k | 0 <= k < |s| :: s[k].value
  }

  /** The groups of `keys`, one after the other. */
  function GroupFrom(s: seq<Symbol>, keys: seq<char>): seq<Symbol>
  {
    if keys == [] then []
    else GroupFrom(s, keys[..|keys| - 1]) + Filter(s, keys[|keys| - 1])
  }

  function Grouped(s: seq<Symbol>): seq<Symbol>
  {
    GroupFrom(s, SortedKeys(Values(s)))
  }

  predicate Increasing(keys: seq<char>)
  {
    forall i, j :: 0 <= i < j < |keys| ==> keys[i] < keys[j]
  }

  lemma {:induction false} FilterConcat(a: seq<Symbol>, b: seq<Symbol>, v: char)
    ensures Filter(a + b, v) == Filter(a, v) + Filter(b, v)
    decreases |b|
  {
    if b == [] {
      assert a + b == a;
    } else {
      var b' := b[..|b| - 1];
      assert (a + b)[..|a + b| - 1] == a + b';
      FilterConcat(a, b', v);
    }
  }

  lemma FilterSingleton(x: Symbol, v: char)
    ensures Filter([x], v) == if x.value == v then [x] else []
  {
    assert [x][..0] == [];
  }

  lemma {:induction false} FilterOfFilter(s: seq<Symbol>, w: char, v: char)
    ensures Filter(Filter(s, w), v) == if w == v then Filter(s, v) else []
    decreases |s|
  {
    if s != [] {
      var s', x := s[..|s| - 1], s[|s| - 1];
      FilterOfFilter(s', w, v);
      var tail := if x.value == w then [x] else [];
      FilterConcat(Filter(s', w), tail, v);
      if x.value == w {
        FilterSingleton(x, v);
      }
    }
  }

  lemma {:induction false} FilterAbsent(s: seq<Symbol>, v: char)
    requires v !in Values(s)
    ensures Filter(s, v) == []
    decreases |s|
  {
    if s != [] {
      var s' := s[..|s| - 1];
      assert Values(s') <= Values(s) by {
        forall c | c in Values(s') ensures c in Values(s) {
          var k :| 0 <= k < |s'| && s'[k].value == c;
          assert s[k].value == c;
        }
      }
      FilterAbsent(s', v);
      assert s[|s| - 1].value in Values(s);
    }
  }

  /** One more symbol: its value joins the keys and its group grows. */
  lemma ValuesSnoc(s: seq<Symbol>, x: Symbol)
    ensures Values(s + [x]) == Values(s) + {x.value}
    ensures forall v :: Filter(s + [x], v) == Filter(s, v) + (if x.value == v then [x] else [])
  {
    var t := s + [x];
    assert t[..|t| - 1] == s;
    forall c | c in Values(t) ensures c in Values(s) + {x.value} {
      var k :| 0 <= k < |t| && t[k].value == c;
      if k < |s| {
        assert s[k].value == c;
      }
    }
    forall c | c in Values(s) ensures c in Values(t) {
      var k :| 0 <= k < |s| && s[k].value == c;
      assert t[k].value == c;
    }
    assert t[|s|].value == x.value;
  }

  lemma {:induction false} FilterGroupFrom(s: seq<Symbol>, keys: seq<char>, v: char)
    requires Increasing(keys)
    ensures Filter(GroupFrom(s, keys), v) == if v in keys then Filter(s, v) else []
    decreases |keys|
  {
    if keys != [] {
      var init, last := keys[..|keys| - 1], keys[|keys| - 1];
      FilterGroupFrom(s, init, v);
      FilterConcat(GroupFrom(s, init), Filter(s, last), v);
      FilterOfFilter(s, last, v);
      assert v in keys <==> v in init || v == last;
      assert v in init ==> v != last;
    }
  }

  /** Regrouping keeps, for every value, its symbols in their original
      order. */
  lemma GroupedIsStable(s: seq<Symbol>, v: char)
    ensures Filter(Grouped(s), v) == Filter(s, v)
  {
    var keys := SortedKeys(Values(s));
    FilterGroupFrom(s, keys, v);
    if v !in keys {
      FilterAbsent(s, v);
    }
  }

  lemma {:induction false} MultisetByFilter(s: seq<Symbol>, x: Symbol)
    ensures multiset(s)[x] == multiset(Filter(s, x.value))[x]
    decreases |s|
  {
    if s != [] {
      var s', y := s[..|s| - 1], s[|s| - 1];
      assert s == s' + [y];
      MultisetByFilter(s', x);
    }
  }

  /** Regrouping is a permutation of the symbol list. */
  lemma GroupedIsPermutation(s: seq<Symbol>)
    ensures multiset(Grouped(s)) == multiset(s)
  {
    var g := Grouped(s);
    forall x
      ensures multiset(g)[x] == multiset(s)[x]
    {
      MultisetByFilter(g, x);
      MultisetByFilter(s, x);
      GroupedIsStable(s, x.value);
    }
  }

  lemma {:induction false} GroupFromValues(s: seq<Symbol>, keys: seq<char>)
    ensures forall x :: x in GroupFrom(s, keys) ==> x.value in keys
    decreases |keys|
  {
    if keys != [] {
      var init := keys[..|keys| - 1];
      GroupFromValues(s, init);
      assert forall c :: c in init ==> c in keys;
    }
  }

  lemma {:induction false} GroupFromSorted(s: seq<Symbol>, keys: seq<char>)
    requires Increasing(keys)
    ensures forall i, j :: 0 <= i < j < |GroupFrom(s, keys)| ==>
              GroupFrom(s, keys)[i].value <= GroupFrom(s, keys)[j].value
    decreases |keys|
  {
    if keys != [] {
      var init, last := keys[..|keys| - 1], keys[|keys| - 1];
      GroupFromSorted(s, init);
      GroupFromValues(s, init);
      var a, b := GroupFrom(s, init), Filter(s, last);
      var g: seq<Symbol> := a + b;
      forall i, j | 0 <= i < j < |g|
        ensures g[i].value <= g[j].value
      {
        if j < |a| {
          assert g[i] == a[i] && g[j] == a[j];
          assert a[i].value <= a[j].value;
        } else {
          assert g[j] == b[j - |a|];
          assert b[j - |a|] in b;
          if i < |a| {
            assert g[i] == a[i];
            assert a[i] in a;
            var m :| 0 <= m < |init| && init[m] == a[i].value;
            assert init[m] == keys[m];
            assert keys[m] < last;
            assert b[j - |a|].value == last;
          } else {
            assert g[i] == b[i - |a|];
            assert b[i - |a|] in b;
          }
        }
      }
    }
  }

  /** Regrouping orders the list by ascending character. */
  lemma GroupedIsSorted(s: seq<Symbol>)
    ensures forall i, j :: 0 <= i < j < |Grouped(s)| ==> Grouped(s)[i].value <= Grouped(s)[j].value
  {
    GroupFromSorted(s, SortedKeys(Values(s)));
    assert Grouped(s) == GroupFrom(s, SortedKeys(Values(s)));
  }
}
