/** The generated data-access queries the service calls, given the meaning of
    plain map operations over the `users` table. */
module UserRepository {
  import opened Wrappers
  import opened UserEntity

  /** `existsByName`: some row holds exactly this name. */
  function ExistsByName(m: Store, name: string): (r: bool)
    ensures r <==> exists id :: id in m && m[id].name == Some(name)
  {
    Some(name) in (set id | id in m :: m[id].name)
  }

  /** `existsByNickname`: some row holds exactly this nickname. */
  function ExistsByNickname(m: Store, nickname: string): (r: bool)
    ensures r <==> exists id :: id in m && m[id].nickname == Some(nickname)
  {
    Some(nickname) in (set id | id in m :: m[id].nickname)
  }

  /** `findById`. */
  function FindById(m: Store, id: Id): (r: Option<Record>)
    ensures r.Some? <==> id in m
    ensures r.Some? ==> r.value.id == id && r.value.user == m[id]
  {
    if id in m then Some(Record(id, m[id])) else None
  }

  /** Set extensionality, spelled out: a set with no members is empty. */
  lemma EmptyWhenNoMember(keys: set<Id>)
    ensures (forall x :: x !in keys) ==> keys == {}
  {
    if forall x :: x !in keys {
      assert forall x :: x in keys <==> x in {};
    }
  }

  lemma {:induction false} HasLeast(keys: set<Id>)
    requires keys != {}
    ensures exists k :: k in keys && forall j :: j in keys ==> k <= j
    decreases keys
  {
    EmptyWhenNoMember(keys);
    var x :| x in keys;
    var rest := keys - {x};
    if rest == {} {
      forall j | j in keys ensures x <= j {
        assert j !in rest;
      }
    } else {
      HasLeast(rest);
      var k :| k in rest && forall j :: j in rest ==> k <= j;
      var least := if x < k then x else k;
      forall j | j in keys ensures least <= j {
        if j != x {
          assert j in rest;
        }
      }
      assert least in keys;
    }
  }

  /** The mirror image of `HasLeast`, with the order reversed. */
  lemma {:induction false} HasGreatest(keys: set<Id>)
    requires keys != {}
    ensures exists k :: k in keys && forall j :: j in keys ==> j <= k
    decreases keys
  {
    EmptyWhenNoMember(keys);
    var x :| x in keys;
    var rest := keys - {x};
    if rest == {} {
      forall j | j in keys ensures j <= x {
        assert j !in rest;
      }
    } else {
      HasGreatest(rest);
      var k :| k in rest && forall j :: j in rest ==> j <= k;
      var greatest := if k < x then x else k;
      forall j | j in keys ensures j <= greatest {
        if j != x {
          assert j in rest;
        }
      }
      assert greatest in keys;
    }
  }

  function Least(keys: set<Id>): (k: Id)
    requires keys != {}
    ensures k in keys && forall j :: j in keys ==> k <= j
  {
    HasLeast(keys);
    var k :| k in keys && forall j :: j in keys ==> k <= j;
    k
  }

  function Greatest(keys: set<Id>): (k: Id)
    requires keys != {}
    ensures k in keys && forall j :: j in keys ==> j <= k
  {
    HasGreatest(keys);
    var k :| k in keys && forall j :: j in keys ==> j <= k;
    k
  }

  /** The id the identity column assigns to a new row: one past the largest
      id in use, starting at 1. */
  function NextId(m: Store): (id: Id)
    ensures id !in m
    ensures id >= 1
    ensures forall k :: k in m ==> k < id
  {
    if m.Keys == {} then 1
    else var g := Greatest(m.Keys); if g < 1 then 1 else g + 1
  }

  /** The ids in `keys`, each once, in ascending order. */
  function SortedIds(keys: set<Id>): (s: seq<Id>)
    ensures |s| == |keys|
    ensures forall k :: k in s <==> k in keys
    ensures forall i, j :: 0 <= i < j < |s| ==> s[i] < s[j]
    decreases keys
  {
    if keys == {} then []
    else
      var k := Least(keys);
      var rest := SortedIds(keys - {k});
      assert |keys - {k}| == |keys| - 1;
      [k] + rest
  }

  /** `findAll`: every row exactly once. The table promises no order; the
      model lists rows by ascending id. */
  function FindAll(m: Store): (r: seq<Record>)
    ensures |r| == |m|
    ensures forall rec :: rec in r ==> rec.id in m && rec.user == m[rec.id]
    ensures forall id :: id in m ==> Record(id, m[id]) in r
    ensures forall i, j :: 0 <= i < j < |r| ==> r[i].id < r[j].id
  {
    var ids := SortedIds(m.Keys);
    var r := seq(|ids|, i requires 0 <= i < |ids| => Record(ids[i], m[ids[i]]));
    assert |m| == |m.Keys|;
    assert forall i :: 0 <= i < |r| ==> r[i].id == ids[i] && r[i].user == m[ids[i]];
    assert forall id :: id in m ==> Record(id, m[id]) in r by {
      forall id | id in m ensures Record(id, m[id]) in r {
        var i :| 0 <= i < |ids| && ids[i] == id;
        assert r[i] == Record(id, m[id]);
      }
    }
    r
  }
}
