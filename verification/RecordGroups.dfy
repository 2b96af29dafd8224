/** Grouping the selected records by connection, and flagging connections whose beginning is missing. */
module RecordGroups {
  import opened Common
  import opened Sorting
  import opened RecordFiles

  /** A record without a connection id is a group of its own, keyed by its position. */
  datatype GroupKey = Conn(id: string) | Lone(index: nat)

  datatype Group = Group(id: Option<string>, items: seq<Record>)

  function KeyFor(r: Record, index: nat): GroupKey {
    if r.id.Some? && r.id.value != "" then Conn(r.id.value) else Lone(index)
  }

  /** Connection-level records (no ordinal) before requests, requests by ordinal. */
  function SortKey(r: Record): Key {
    if r.req.None? then Key(0, 0) else Key(1, r.req.value)
  }

  function Keyed(items: seq<Record>): (r: seq<Keyed<Record>>)
    ensures |r| == |items|
    ensures forall i :: 0 <= i < |items| ==> r[i] == (SortKey(items[i]), items[i])
  {
    seq(|items|, i requires 0 <= i < |items| => (SortKey(items[i]), items[i]))
  }

  /** Inserts after every record whose key is not greater. */
  function InsertItem(s: seq<Record>, r: Record): seq<Record> {
    if s == [] then [r]
    else if Leq(SortKey(s[|s| - 1]), SortKey(r)) then s + [r]
    else InsertItem(s[..|s| - 1], r) + [s[|s| - 1]]
  }

  function SortItems(items: seq<Record>): seq<Record> {
    if items == [] then [] else InsertItem(SortItems(items[..|items| - 1]), items[|items| - 1])
  }

  lemma KeyedSnoc(s: seq<Record>, r: Record)
    ensures Keyed(s + [r]) == Keyed(s) + [(SortKey(r), r)]
  {
  }

  lemma {:induction false} InsertIsStable(s: seq<Record>, r: Record)
    ensures Keyed(InsertItem(s, r)) == Insert(Keyed(s), (SortKey(r), r))
  {
    var x: Keyed<Record> := (SortKey(r), r);
    if s == [] {
      assert Keyed([r]) == [x];
    } else {
      var front, last := s[..|s| - 1], s[|s| - 1];
      InsertIsStable(front, r);
      KeyedSnoc(front, last);
      assert s == front + [last];
      KeyedSnoc(s, r);
      KeyedSnoc(InsertItem(front, r), last);
      assert Keyed(s)[..|s| - 1] == Keyed(front);
    }
  }

  /** It is the stable sort by those keys. */
  lemma {:induction false} SortIsStable(items: seq<Record>)
    ensures Keyed(SortItems(items)) == StableSort(Keyed(items))
  {
    if items != [] {
      var front, last := items[..|items| - 1], items[|items| - 1];
      SortIsStable(front);
      InsertIsStable(SortItems(front), last);
      KeyedSnoc(front, last);
      assert items == front + [last];
    }
  }

  // --- The grouping as a function ---

  /** The group keys in order of first appearance. */
  function KeysIn(records: seq<Record>): seq<GroupKey> {
    if records == [] then []
    else
      var front := KeysIn(records[..|records| - 1]);
      var key := KeyFor(records[|records| - 1], |records| - 1);
      if key in front then front else front + [key]
  }

  function ItemsOf(records: seq<Record>, key: GroupKey): seq<Record> {
    if records == [] then []
    else
      var front := ItemsOf(records[..|records| - 1], key);
      if KeyFor(records[|records| - 1], |records| - 1) == key then front + [records[|records| - 1]] else front
  }

  function IdOf(key: GroupKey): Option<string> {
    if key.Conn? then Some(key.id) else None
  }

  function GroupOf(records: seq<Record>, key: GroupKey): Group {
    Group(IdOf(key), SortItems(ItemsOf(records, key)))
  }

  function GroupsFor(records: seq<Record>, keys: seq<GroupKey>): (r: seq<Group>)
    ensures |r| == |keys|
    ensures forall i :: 0 <= i < |keys| ==> r[i] == GroupOf(records, keys[i])
  {
    seq(|keys|, i requires 0 <= i < |keys| => GroupOf(records, keys[i]))
  }

  function Grouped(records: seq<Record>): seq<Group> {
    GroupsFor(records, KeysIn(records))
  }

  lemma OneMoreRecord(records: seq<Record>, i: nat, k: GroupKey)
    requires i < |records|
    ensures var key, was := KeyFor(records[i], i), ItemsOf(records[..i], k);
            ItemsOf(records[..i + 1], k) == if k == key then was + [records[i]] else was
  {
    assert records[..i + 1][..i] == records[..i];
  }

  lemma OneMoreKey(records: seq<Record>, i: nat)
    requires i < |records|
    ensures var key, keys := KeyFor(records[i], i), KeysIn(records[..i]);
            KeysIn(records[..i + 1]) == if key in keys then keys else keys + [key]
  {
    assert records[..i + 1][..i] == records[..i];
  }

  /** The dictionary holds every record so far under its key, and nothing else. */
  ghost predicate Collected(records: seq<Record>, order: seq<GroupKey>, groups: map<GroupKey, seq<Record>>) {
    && order == KeysIn(records)
    && (forall k :: k in groups <==> k in order)
    && (forall k :: k in groups ==> groups[k] == ItemsOf(records, k))
    && (forall k :: k !in groups ==> ItemsOf(records, k) == [])
  }

  lemma CollectOne(records: seq<Record>, i: nat, order: seq<GroupKey>, groups: map<GroupKey, seq<Record>>)
    requires i < |records| && Collected(records[..i], order, groups)
    ensures var key, r := KeyFor(records[i], i), records[i];
            Collected(records[..i + 1], if key in groups then order else order + [key],
                      groups[key := (if key in groups then groups[key] else []) + [r]])
  {
    OneMoreKey(records, i);
    forall k ensures ItemsOf(records[..i + 1], k) ==
                     if k == KeyFor(records[i], i) then ItemsOf(records[..i], k) + [records[i]]
                         else ItemsOf(records[..i], k) {
      OneMoreRecord(records, i, k);
    }
  }

  /** An insertion-ordered dictionary filled in one pass. */
  method CollectGroups(records: seq<Record>) returns (order: seq<GroupKey>, groups: map<GroupKey, seq<Record>>)
    ensures Collected(records, order, groups)
  {
    order, groups := [], map[];
    for i := 0 to |records|
      invariant Collected(records[..i], order, groups)
    {
      CollectOne(records, i, order, groups);
      var key := KeyFor(records[i], i);
      if key in groups {
        groups := groups[key := groups[key] + [records[i]]];
      } else {
        order := order + [key];
        groups := groups[key := [records[i]]];
      }
    }
    assert records[..|records|] == records;
  }

  /** group_by_connection: the dictionary, then each of its lists sorted. */
  method GroupByConnection(records: seq<Record>) returns (ordered: seq<Group>)
    ensures ordered == Grouped(records)
  {
    var order, groups := CollectGroups(records);
    ordered := [];
    for j := 0 to |order|
      invariant |ordered| == j && forall i :: 0 <= i < j ==> ordered[i] == GroupOf(records, order[i])
    {
      assert order[j] in order;
      ordered := ordered + [Group(IdOf(order[j]), SortItems(groups[order[j]]))];
    }
  }

  // --- What the grouping keeps ---

  lemma {:induction false} ItemsExactly(records: seq<Record>, key: GroupKey)
    ensures forall r :: r in ItemsOf(records, key) <==>
              exists i :: 0 <= i < |records| && records[i] == r && KeyFor(records[i], i) == key
    ensures key.Lone? ==> |ItemsOf(records, key)| <= 1 && (key.index >= |records| ==> ItemsOf(records, key) == [])
  {
    if records != [] {
      var front, n := records[..|records| - 1], |records| - 1;
      ItemsExactly(front, key);
      forall r ensures r in ItemsOf(records, key) <==>
                       exists i :: 0 <= i < |records| && records[i] == r && KeyFor(records[i], i) == key {
        if r in ItemsOf(front, key) {
          var i :| 0 <= i < |front| && front[i] == r && KeyFor(front[i], i) == key;
          assert records[i] == front[i];
        }
        if i :| 0 <= i < |records| && records[i] == r && KeyFor(records[i], i) == key {
          if i < n {
            assert front[i] == r;
          }
        }
      }
    }
  }

  /** The first record of a group. */
  ghost predicate FirstAt(records: seq<Record>, key: GroupKey, i: nat) {
    i < |records| && KeyFor(records[i], i) == key && forall j :: 0 <= j < i ==> KeyFor(records[j], j) != key
  }

  ghost predicate HasKey(records: seq<Record>, key: GroupKey) {
    exists i :: 0 <= i < |records| && KeyFor(records[i], i) == key
  }

  lemma HasKeyStep(records: seq<Record>, key: GroupKey)
    requires records != []
    ensures HasKey(records, key) <==>
            HasKey(records[..|records| - 1], key) || KeyFor(records[|records| - 1], |records| - 1) == key
  {
    var front, n := records[..|records| - 1], |records| - 1;
    if i :| 0 <= i < |front| && KeyFor(front[i], i) == key {
      assert records[i] == front[i];
    }
    if i :| 0 <= i < |records| && KeyFor(records[i], i) == key {
      if i < n {
        assert front[i] == records[i];
      }
    }
  }

  /** Each group appears once, for exactly the keys that occur. */
  lemma {:induction false} KeysExactly(records: seq<Record>)
    ensures NoDuplicates(KeysIn(records))
    ensures forall k :: k in KeysIn(records) <==> HasKey(records, k)
  {
    if records != [] {
      var front := records[..|records| - 1];
      KeysExactly(front);
      forall k ensures k in KeysIn(records) <==> HasKey(records, k) { HasKeyStep(records, k); }
    }
  }

  lemma FirstInFront(records: seq<Record>, key: GroupKey, i: nat)
    requires records != [] && FirstAt(records, key, i)
    ensures i < |records| - 1 ==> FirstAt(records[..|records| - 1], key, i)
    ensures i == |records| - 1 ==> !HasKey(records[..|records| - 1], key)
  {
  }

  /** Groups come in the order in which their connections first appear. */
  lemma {:induction false} FirstAppearanceOrder(records: seq<Record>, a: nat, b: nat, i: nat, j: nat)
    requires a < b < |KeysIn(records)|
    requires FirstAt(records, KeysIn(records)[a], i) && FirstAt(records, KeysIn(records)[b], j)
    ensures i < j
  {
    var front, n := records[..|records| - 1], |records| - 1;
    KeysExactly(front);
    KeysExactly(records);
    FirstInFront(records, KeysIn(records)[a], i);
    FirstInFront(records, KeysIn(records)[b], j);
    assert KeysIn(records)[a] in KeysIn(front) by {
      assert KeysIn(records)[a] == KeysIn(front)[a];
    }
    if b < |KeysIn(front)| {
      assert KeysIn(records)[b] == KeysIn(front)[b];
      FirstAppearanceOrder(front, a, b, i, j);
    }
  }

  // --- Conservation ---

  function Total(records: seq<Record>, keys: seq<GroupKey>): multiset<Record> {
    if keys == [] then multiset{}
    else Total(records, keys[..|keys| - 1]) + multiset(ItemsOf(records, keys[|keys| - 1]))
  }

  function Contents(groups: seq<Group>): multiset<Record> {
    if groups == [] then multiset{} else Contents(groups[..|groups| - 1]) + multiset(groups[|groups| - 1].items)
  }

  lemma {:induction false} TotalStep(records: seq<Record>, keys: seq<GroupKey>)
    requires records != [] && NoDuplicates(keys)
    ensures var key := KeyFor(records[|records| - 1], |records| - 1);
            Total(records, keys) == Total(records[..|records| - 1], keys) +
                                    if key in keys then multiset{records[|records| - 1]} else multiset{}
  {
    if keys != [] {
      var front, last := keys[..|keys| - 1], keys[|keys| - 1];
      TotalStep(records, front);
      assert keys == front + [last] && last !in front;
    }
  }

  lemma {:induction false} TotalOfAbsent(records: seq<Record>, key: GroupKey)
    requires !HasKey(records, key)
    ensures ItemsOf(records, key) == []
  {
    if records != [] {
      HasKeyStep(records, key);
      TotalOfAbsent(records[..|records| - 1], key);
    }
  }

  lemma TotalPlusAbsent(records: seq<Record>, keys: seq<GroupKey>, key: GroupKey)
    requires !HasKey(records, key)
    ensures Total(records, keys + [key]) == Total(records, keys)
  {
    TotalOfAbsent(records, key);
    assert (keys + [key])[..|keys|] == keys;
  }

  lemma TotalOfFront(records: seq<Record>)
    requires records != []
    ensures KeyFor(records[|records| - 1], |records| - 1) in KeysIn(records)
    ensures Total(records[..|records| - 1], KeysIn(records)) ==
            Total(records[..|records| - 1], KeysIn(records[..|records| - 1]))
  {
    var front := records[..|records| - 1];
    var key := KeyFor(records[|records| - 1], |records| - 1);
    KeysExactly(front);
    if key !in KeysIn(front) {
      TotalPlusAbsent(front, KeysIn(front), key);
    }
  }

  lemma {:induction false} TotalIsRecords(records: seq<Record>)
    ensures Total(records, KeysIn(records)) == multiset(records)
  {
    if records != [] {
      var front, last := records[..|records| - 1], records[|records| - 1];
      calc {
        Total(records, KeysIn(records));
        { KeysExactly(records); TotalOfFront(records); TotalStep(records, KeysIn(records)); }
        Total(front, KeysIn(front)) + multiset{last};
        { TotalIsRecords(front); }
        multiset(front) + multiset{last};
        { MultisetSnoc(front, last); assert records == front + [last]; }
        multiset(records);
      }
    }
  }

  lemma MultisetSnoc(s: seq<Record>, r: Record)
    ensures multiset(s + [r]) == multiset(s) + multiset{r}
  {
  }

  lemma {:induction false} InsertPermutes(s: seq<Record>, r: Record)
    ensures multiset(InsertItem(s, r)) == multiset(s) + multiset{r}
  {
    if s != [] && !Leq(SortKey(s[|s| - 1]), SortKey(r)) {
      var front, last := s[..|s| - 1], s[|s| - 1];
      InsertPermutes(front, r);
      MultisetSnoc(InsertItem(front, r), last);
      MultisetSnoc(front, last);
      assert s == front + [last];
    }
  }

  lemma {:induction false} SortPermutes(items: seq<Record>)
    ensures multiset(SortItems(items)) == multiset(items)
  {
    if items != [] {
      var front, last := items[..|items| - 1], items[|items| - 1];
      SortPermutes(front);
      InsertPermutes(SortItems(front), last);
      MultisetSnoc(front, last);
      assert items == front + [last];
    }
  }

  lemma SortIsAscending(items: seq<Record>, i: nat, j: nat)
    requires i < j < |SortItems(items)|
    ensures Leq(SortKey(SortItems(items)[i]), SortKey(SortItems(items)[j]))
  {
    SortIsStable(items);
    SortAscending(Keyed(items));
    var s := Keyed(SortItems(items));
    assert Leq(s[i].0, s[j].0);
  }

  lemma SortKeepsOrder(items: seq<Record>, k: Key)
    ensures WithKey(Keyed(SortItems(items)), k) == WithKey(Keyed(items), k)
  {
    SortIsStable(items);
    SortStable(Keyed(items), k);
  }

  /** Sorting a group: a permutation, in key order, keeping the order of equal keys. */
  lemma SortItemsExactly(items: seq<Record>)
    ensures multiset(SortItems(items)) == multiset(items)
    ensures forall i, j :: 0 <= i < j < |SortItems(items)| ==>
              Leq(SortKey(SortItems(items)[i]), SortKey(SortItems(items)[j]))
    ensures forall k :: WithKey(Keyed(SortItems(items)), k) == WithKey(Keyed(items), k)
  {
    SortPermutes(items);
    forall i, j | 0 <= i < j < |SortItems(items)|
      ensures Leq(SortKey(SortItems(items)[i]), SortKey(SortItems(items)[j]))
    {
      SortIsAscending(items, i, j);
    }
    forall k ensures WithKey(Keyed(SortItems(items)), k) == WithKey(Keyed(items), k) { SortKeepsOrder(items, k); }
  }

  lemma {:induction false} ContentsIsTotal(records: seq<Record>, keys: seq<GroupKey>)
    ensures Contents(GroupsFor(records, keys)) == Total(records, keys)
  {
    if keys != [] {
      var front := keys[..|keys| - 1];
      ContentsIsTotal(records, front);
      SortPermutes(ItemsOf(records, keys[|keys| - 1]));
      var g := GroupsFor(records, keys);
      assert g[..|g| - 1] == GroupsFor(records, front);
    }
  }

  lemma SameMembers(items: seq<Record>, r: Record)
    ensures r in SortItems(items) <==> r in items
  {
    SortItemsExactly(items);
    assert r in items <==> r in multiset(items);
    assert r in SortItems(items) <==> r in multiset(SortItems(items));
  }

  lemma KeyDeterminesId(records: seq<Record>, key: GroupKey, r: Record)
    requires r in SortItems(ItemsOf(records, key))
    ensures key.Conn? ==> r.id == Some(key.id)
    ensures key.Lone? ==> r.id.None? || r.id.value == ""
  {
    SameMembers(ItemsOf(records, key), r);
    ItemsExactly(records, key);
  }

  /** The grouping is a partition of its input by connection id, with id-less records alone. */
  lemma GroupingIsAPartition(records: seq<Record>)
    ensures Contents(Grouped(records)) == multiset(records)
    ensures forall g :: g in Grouped(records) ==>
              && g.items != []
              && (g.id.Some? ==> forall r :: r in g.items ==> r.id == g.id)
              && (g.id.None? ==> |g.items| == 1 && (g.items[0].id.None? || g.items[0].id.value == ""))
    ensures forall a, b :: 0 <= a < b < |Grouped(records)| && Grouped(records)[a].id.Some? ==>
              Grouped(records)[a].id != Grouped(records)[b].id
  {
    var keys := KeysIn(records);
    ContentsIsTotal(records, keys);
    TotalIsRecords(records);
    KeysExactly(records);
    forall a | 0 <= a < |keys|
      ensures var g := GroupOf(records, keys[a]);
              && g.items != []
              && (g.id.Some? ==> forall r :: r in g.items ==> r.id == g.id)
              && (g.id.None? ==> |g.items| == 1 && (g.items[0].id.None? || g.items[0].id.value == ""))
    {
      var key := keys[a];
      assert key in keys;
      var items := SortItems(ItemsOf(records, key));
      forall r | r in items ensures (key.Conn? ==> r.id == Some(key.id)) &&
                                    (key.Lone? ==> r.id.None? || r.id.value == "") {
        KeyDeterminesId(records, key, r);
      }
      ItemsExactly(records, key);
      SortPermutes(ItemsOf(records, key));
      var i :| 0 <= i < |records| && KeyFor(records[i], i) == key;
      assert records[i] in ItemsOf(records, key);
      assert |multiset(items)| == |multiset(ItemsOf(records, key))|;
      assert items[0] in items;
    }
  }

  // --- Which groups are missing their beginning ---

  function MinReq(items: seq<Record>): (m: int)
    requires items != [] && forall r :: r in items ==> r.req.Some?
    ensures exists r :: r in items && r.req == Some(m)
    ensures forall r :: r in items ==> m <= r.req.value
  {
    assert items[0] in items;
    if |items| == 1 then items[0].req.value
    else
      var rest := MinReq(items[1..]);
      if items[0].req.value < rest then items[0].req.value else rest
  }

  predicate GroupIsPartial(items: seq<Record>) {
    items != [] && (forall r :: r in items ==> r.req.Some?) && MinReq(items) != 1
  }

  /** One connection's records as written: connection-level ones first, then requests 1, 2, 3, ... */
  ghost predicate InOrder(items: seq<Record>, level: nat) {
    && level <= |items|
    && (forall i :: 0 <= i < level ==> items[i].req.None?)
    && forall i :: level <= i < |items| ==> items[i].req == Some(i - level + 1)
  }

  ghost predicate WellFormed(records: seq<Record>) {
    forall id :: id != "" ==> exists level :: InOrder(ItemsOf(records, Conn(id)), level)
  }

  lemma {:induction false} ItemsConcat(a: seq<Record>, b: seq<Record>, id: string)
    ensures ItemsOf(a + b, Conn(id)) == ItemsOf(a, Conn(id)) + ItemsOf(b, Conn(id))
  {
    if b == [] {
      assert a + b == a;
    } else {
      ItemsConcat(a, b[..|b| - 1], id);
      assert (a + b)[..|a + b| - 1] == a + b[..|b| - 1];
    }
  }

  lemma PartialTail(gone: seq<Record>, kept: seq<Record>, level: nat)
    requires InOrder(gone + kept, level) && kept != []
    ensures GroupIsPartial(SortItems(kept)) <==> exists r :: r in gone && r.req.Some?
  {
    var items := SortItems(kept);
    SortPermutes(kept);
    assert |multiset(items)| == |multiset(kept)|;
    forall r ensures r in items <==> r in kept { SameMembers(kept, r); }
    var all := gone + kept;
    forall i | 0 <= i < |kept| ensures kept[i] == all[|gone| + i] {}
    forall i | 0 <= i < |gone| ensures gone[i] == all[i] {}
    if level > |gone| {
      assert kept[0] in kept && kept[0].req.None?;
    } else {
      assert kept[0] in kept && kept[0].req == Some(|gone| - level + 1);
      forall r | r in kept ensures r.req.Some? && |gone| - level + 1 <= r.req.value {
        var i :| 0 <= i < |kept| && kept[i] == r;
      }
      if level < |gone| {
        assert gone[level] in gone && gone[level].req == Some(1);
      } else {
        forall r | r in gone ensures r.req.None? {
          var i :| 0 <= i < |gone| && gone[i] == r;
        }
      }
    }
  }

  /** `selected[-limit:]`, with 0 meaning all. */
  function LastLines(records: seq<Record>, limit: nat): seq<Record> {
    if limit == 0 || |records| <= limit then records else records[|records| - limit..]
  }

  /** On any tail of a well-formed history a group is flagged exactly when one of its requests is missing. */
  lemma PartialExactlyWhenMissing(history: seq<Record>, d: nat, id: string)
    requires d <= |history| && WellFormed(history) && id != ""
    requires HasKey(history[d..], Conn(id))
    ensures GroupIsPartial(GroupOf(history[d..], Conn(id)).items) <==>
            exists r :: r in ItemsOf(history[..d], Conn(id)) && r.req.Some?
  {
    assert history == history[..d] + history[d..];
    ItemsConcat(history[..d], history[d..], id);
    var level :| InOrder(ItemsOf(history, Conn(id)), level);
    ItemsExactly(history[d..], Conn(id));
    var i :| 0 <= i < |history[d..]| && KeyFor(history[d..][i], i) == Conn(id);
    assert history[d..][i] in ItemsOf(history[d..], Conn(id));
    PartialTail(ItemsOf(history[..d], Conn(id)), ItemsOf(history[d..], Conn(id)), level);
  }
}
