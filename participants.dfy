/** The participant registry of `State` as values: the ordered participant map
    (a `BTreeMap<u64, Participant>`, here a `map` whose keys are enumerated in
    ascending order), admission of pending participants, the activity test of
    `refresh_participants`, and the epoch leader. */
module Participants {
  import opened Externals

  /** Every participant is stored under its own id. */
  ghost predicate KeyedById(m: map<nat, Participant>) {
    forall k :: k in m ==> m[k].id == k
  }

  predicate IsMin(s: set<nat>, m: nat) {
    m in s && forall x :: x in s ==> m <= x
  }

  lemma {:induction false} HasMinimum(s: set<nat>)
    requires s != {}
    ensures exists m :: IsMin(s, m)
    decreases |s|
  {
    var y :| y in s;
    if s == {y} {
      assert IsMin(s, y);
    } else {
      var rest := s - {y};
      assert |rest| < |s|;
      HasMinimum(rest);
      var m :| IsMin(rest, m);
      var least := if y < m then y else m;
      forall x | x in s ensures least <= x {
        if x != y { assert x in rest; }
      }
      assert IsMin(s, least);
    }
  }

  function MinOf(s: set<nat>): (m: nat)
    requires s != {}
    ensures m in s && forall x :: x in s ==> m <= x
  {
    HasMinimum(s);
    var m :| IsMin(s, m);
    m
  }

  /** The keys of an ordered map in iteration order: ascending, each once. */
  function SortedKeys(s: set<nat>): (r: seq<nat>)
    ensures |r| == |s|
    ensures forall i :: 0 <= i < |r| ==> r[i] in s
    ensures forall x :: x in s ==> x in r
    ensures forall i, j :: 0 <= i < j < |r| ==> r[i] < r[j]
    decreases s
  {
    if s == {} then []
    else
      var m := MinOf(s);
      var rest := SortedKeys(s - {m});
      PrependMin(s, m, rest);
      [m] + rest
  }

  /** Putting the minimum of `s` in front of the sorted keys of the rest
      gives the sorted keys of `s`. */
  lemma PrependMin(s: set<nat>, m: nat, rest: seq<nat>)
    requires m in s && forall x :: x in s ==> m <= x
    requires |rest| == |s - {m}|
    requires forall i :: 0 <= i < |rest| ==> rest[i] in s - {m}
    requires forall x :: x in s - {m} ==> x in rest
    requires forall i, j :: 0 <= i < j < |rest| ==> rest[i] < rest[j]
    ensures |[m] + rest| == |s|
    ensures forall i :: 0 <= i < |[m] + rest| ==> ([m] + rest)[i] in s
    ensures forall x :: x in s ==> x in [m] + rest
    ensures forall i, j :: 0 <= i < j < |[m] + rest| ==> ([m] + rest)[i] < ([m] + rest)[j]
  {
    assert |s - {m}| == |s| - 1;
    assert forall j :: 0 <= j < |rest| ==> m < rest[j];
    assert forall x :: x in s ==> x == m || x in rest;
  }

  /** The values of `m` for the keys `ks`, in that order. */
  function ValuesAt(m: map<nat, Participant>, ks: seq<nat>): (r: seq<Participant>)
    requires forall i :: 0 <= i < |ks| ==> ks[i] in m
    ensures |r| == |ks| && forall i :: 0 <= i < |ks| ==> r[i] == m[ks[i]]
  {
    if ks == [] then [] else [m[ks[0]]] + ValuesAt(m, ks[1..])
  }

  /** `participants.values()`: the participants in ascending id order. */
  function ParticipantValues(m: map<nat, Participant>): seq<Participant> {
    ValuesAt(m, SortedKeys(m.Keys))
  }

  /** `participants.values()` lists every participant once, in ascending id
      order. */
  lemma ParticipantValuesInIdOrder(m: map<nat, Participant>)
    requires KeyedById(m)
    ensures |ParticipantValues(m)| == |m|
    ensures forall k :: k in m ==> m[k] in ParticipantValues(m)
    ensures forall i :: 0 <= i < |ParticipantValues(m)| ==> ParticipantValues(m)[i] in m.Values
    ensures forall i, j :: 0 <= i < j < |ParticipantValues(m)| ==>
      ParticipantValues(m)[i].id < ParticipantValues(m)[j].id
  {
    var ks := SortedKeys(m.Keys);
    var vs := ParticipantValues(m);
    forall k | k in m ensures m[k] in vs {
      var i :| 0 <= i < |ks| && ks[i] == k;
      assert vs[i] == m[k];
    }
    forall i, j | 0 <= i < j < |vs| ensures vs[i].id < vs[j].id {
      assert vs[i] == m[ks[i]] && vs[j] == m[ks[j]];
    }
  }

  function Elems(q: seq<nat>): set<nat> {
    set x | x in q
  }

  /** The keys of `s` below `k`. */
  function KeysBelow(s: set<nat>, k: nat): set<nat> {
    set x | x in s && x < k
  }

  lemma {:induction false} DistinctCard(q: seq<nat>)
    requires forall i, j :: 0 <= i < j < |q| ==> q[i] != q[j]
    ensures |Elems(q)| == |q|
    decreases |q|
  {
    if q != [] {
      var init := q[..|q| - 1];
      DistinctCard(init);
      var last := q[|q| - 1];
      assert last !in init;
      assert Elems(q) == Elems(init) + {last};
    }
  }

  /** In an ascending enumeration of `s`, exactly `i` keys of `s` lie below the
      `i`-th. */
  lemma CountBelow(s: set<nat>, ks: seq<nat>, i: nat)
    requires i < |ks|
    requires forall k :: 0 <= k < |ks| ==> ks[k] in s
    requires forall x :: x in s ==> x in ks
    requires forall k, l :: 0 <= k < l < |ks| ==> ks[k] < ks[l]
    ensures |KeysBelow(s, ks[i])| == i
  {
    var below := KeysBelow(s, ks[i]);
    var prefix := ks[..i];
    forall x | x in below ensures x in prefix {
      var k :| 0 <= k < |ks| && ks[k] == x;
      assert k < i;
      assert prefix[k] == x;
    }
    forall x | x in prefix ensures x in below {
      var k :| 0 <= k < i && prefix[k] == x;
    }
    assert below == Elems(prefix);
    DistinctCard(prefix);
  }

  /** `get_epoch_leader`'s choice: the key at position `h % n` of the ordered
      map, i.e. the key with exactly `h % n` smaller keys. */
  function LeaderKey(m: map<nat, Participant>, h: nat): (k: nat)
    requires |m| > 0
    ensures k in m
    ensures |KeysBelow(m.Keys, k)| == h % |m|
  {
    var ks := SortedKeys(m.Keys);
    var pos := h % |m|;
    CountBelow(m.Keys, ks, pos);
    ks[pos]
  }

  /** The epoch leader's id, for the epoch whose hash is `h`. Two nodes with
      the same participant map compute the same leader. */
  function EpochLeader(m: map<nat, Participant>, h: nat): (id: nat)
    requires |m| > 0
    ensures KeyedById(m) ==> id in m && |KeysBelow(m.Keys, id)| == h % |m|
  {
    m[LeaderKey(m, h)].id
  }

  /** The ids of `ps`. */
  function Ids(ps: seq<Participant>): (r: set<nat>)
    ensures forall i :: 0 <= i < |ps| ==> ps[i].id in r
    ensures forall k :: k in r ==> exists i :: 0 <= i < |ps| && ps[i].id == k
  {
    if ps == [] then {} else {ps[0].id} + Ids(ps[1..])
  }

  /** Inserts each participant under its id, in order: every id of `ps`
      becomes a key holding one of `ps` with that id (the last one inserted
      wins), and the other keys keep their values. */
  function InsertAll(m: map<nat, Participant>, ps: seq<Participant>): (r: map<nat, Participant>)
    ensures r.Keys == m.Keys + Ids(ps)
    ensures forall k :: k in r && k !in Ids(ps) ==> r[k] == m[k]
    ensures forall k :: k in Ids(ps) ==> r[k] in ps && r[k].id == k
    ensures |ps| > 0 ==> r[ps[|ps| - 1].id] == ps[|ps| - 1]
    ensures KeyedById(m) ==> KeyedById(r)
    decreases |ps|
  {
    if ps == [] then m
    else
      var init, p := ps[..|ps| - 1], ps[|ps| - 1];
      assert ps == init + [p];
      var r0 := InsertAll(m, init);
      assert Ids(ps) == Ids(init) + {p.id} by {
        forall x | x in Ids(ps) ensures x in Ids(init) + {p.id} {
          var i :| 0 <= i < |ps| && ps[i].id == x;
          if i < |init| { assert init[i].id == x; }
        }
      }
      r0[p.id := p]
  }

  /** Inserting one more participant is one more map update. */
  lemma InsertAllSnoc(m: map<nat, Participant>, ps: seq<Participant>, p: Participant)
    ensures InsertAll(m, ps + [p]) == InsertAll(m, ps)[p.id := p]
  {
    assert (ps + [p])[..|ps|] == ps;
  }

  /** The last inserted participant with a given id is the one the map keeps
      under that id. */
  lemma {:induction false} InsertAllLastWins(m: map<nat, Participant>, ps: seq<Participant>, i: nat)
    requires i < |ps|
    requires forall j :: i < j < |ps| ==> ps[j].id != ps[i].id
    ensures InsertAll(m, ps)[ps[i].id] == ps[i]
    decreases |ps|
  {
    var init, p := ps[..|ps| - 1], ps[|ps| - 1];
    assert ps == init + [p];
    InsertAllSnoc(m, init, p);
    if i < |ps| - 1 {
      assert init[i] == ps[i];
      InsertAllLastWins(m, init, i);
    }
  }

  /** The participant map after `zero_participants_check`: when it is empty,
      every pending participant is admitted; otherwise nothing changes. */
  function Admitted(m: map<nat, Participant>, pending: seq<Participant>): (r: map<nat, Participant>)
    ensures |m| > 0 ==> r == m
    ensures |m| == 0 ==> r.Keys == Ids(pending)
  {
    if |m| == 0 then InsertAll(m, pending) else m
  }

  /** `refresh_participants`' activity test against the previous epoch: voted
      in it or later, or never voted and joined in it or later. */
  predicate IsActive(p: Participant, previousEpoch: nat) {
    match p.voted
    case Some(epoch) => epoch >= previousEpoch
    case None => p.joined >= previousEpoch
  }

  /** A participant active against an epoch is active against every earlier
      one; a participant that has voted is judged by its vote alone. */
  lemma ActiveForEarlierEpochs(p: Participant, previousEpoch: nat, earlier: nat)
    requires earlier <= previousEpoch
    ensures IsActive(p, previousEpoch) ==> IsActive(p, earlier)
    ensures p.voted.Some? ==> (IsActive(p, previousEpoch) <==> p.voted.value >= previousEpoch)
  {
  }

  /** The participants of `m` that are active. */
  function RetainActive(m: map<nat, Participant>, previousEpoch: nat): (r: map<nat, Participant>)
    ensures forall k :: k in r <==> k in m && IsActive(m[k], previousEpoch)
    ensures forall k :: k in r ==> r[k] == m[k]
  {
    map k | k in m && IsActive(m[k], previousEpoch) :: m[k]
  }

  lemma ElemsStep(q: seq<nat>, j: nat)
    requires j < |q|
    ensures Elems(q[..j + 1]) == Elems(q[..j]) + {q[j]}
  {
    assert q[..j + 1] == q[..j] + [q[j]];
  }

  /** Removing exactly the inactive ids is retaining the active
      participants. */
  lemma RemovingInactive(m: map<nat, Participant>, inactive: seq<nat>, previousEpoch: nat)
    requires forall k :: k in inactive ==> k in m && !IsActive(m[k], previousEpoch)
    requires forall k :: k in m && !IsActive(m[k], previousEpoch) ==> k in inactive
    ensures m - Elems(inactive) == RetainActive(m, previousEpoch)
  {
    assert (m - Elems(inactive)).Keys == RetainActive(m, previousEpoch).Keys;
  }
}
