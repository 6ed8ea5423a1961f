/** A `std::map<char, std::vector<...>>` as the solvers use it: iteration
    in ascending character code, and `operator[]` on a missing key. */
module CharOrder {

  /** The list kept for `c`; `std::map::operator[]` starts a missing
      character with an empty list. */
  function PositionsOf<T>(m: map<char, seq<T>>, c: char): seq<T>
  {
    if c in m then m[c] else []
  }

  lemma {:induction false} LeastExists(s: set<char>)
    requires s != {}
    ensures exists m :: m in s && forall c :: c in s ==> m <= c
  {
    var x :| x in s;
    if s != {x} {
      LeastExists(s - {x});
      var m :| m in s - {x} && forall c :: c in s - {x} ==> m <= c;
      var least := if x < m then x else m;
      forall c | c in s
        ensures least <= c
      {
        if c != x {
          assert c in s - {x};
        }
      }
    }
  }

  /** The smallest key: the first one `std::map` visits. */
  function Least(s: set<char>): (m: char)
    requires s != {}
    ensures m in s && forall c :: c in s ==> m <= c
  {
    LeastExists(s);
    var m :| m in s && forall c :: c in s ==> m <= c;
    m
  }

  /** The keys of `s` in the order a `std::map` iterates them. */
  function SortedKeys(s: set<char>): (r: seq<char>)
    ensures |r| == |s|
    ensures forall c :: c in r <==> c in s
    ensures forall i, j :: 0 <= i < j < |r| ==> r[i] < r[j]
    decreases s
  {
    if s == {} then []
    else
      var m := Least(s);
      var rest := SortedKeys(s - {m});
      assert forall c :: c in rest ==> m < c;
      assert forall i :: 0 < i < |rest| + 1 ==> ([m] + rest)[i] == rest[i - 1];
      [m] + rest
  }
}
