/** A configuration set (src/config.c) on values: an ordered list of keys with
    values, proved to be an insertion-ordered map. */
module Config {
  import opened Options
  import opened CStrings

  /** Sizes of the key and value fields, with their NUL. */
  const KEY_LEN := 32
  const VALUE_LEN := 256

  datatype Pair = Pair(key: string, val: string)

  type Items = seq<Pair>

  /** configKeyValidate. */
  predicate ValidKey(key: string) {
    key != "" && '=' !in key
  }

  /** What fits a pair's fields. */
  function Stored(key: string, val: string): Pair {
    Pair(First(key, KEY_LEN - 1), First(val, VALUE_LEN - 1))
  }

  predicate Named(p: Pair, name: string) {
    SameWithin(p.key, name, KEY_LEN)
  }

  /** The first pair of that name; |items| when there is none. */
  function IndexOf(items: Items, name: string): (i: nat)
    ensures i <= |items| && (i < |items| ==> Named(items[i], name))
    ensures forall j :: 0 <= j < i ==> !Named(items[j], name)
  {
    if items == [] then 0
    else
      var i := IndexOf(items[..|items| - 1], name);
      if i < |items| - 1 || Named(items[|items| - 1], name) then i else i + 1
  }

  /** configGetStr. */
  function Lookup(items: Items, key: string): Option<string> {
    if ValidKey(key) && IndexOf(items, key) < |items| then Some(items[IndexOf(items, key)].val) else None
  }

  /** configSetStr: overwrites the value of the first pair of that name, or appends a pair. */
  function Set(items: Items, key: string, val: string): Items {
    var i := IndexOf(items, key);
    if !ValidKey(key) then items
    else if i == |items| then items + [Stored(key, val)]
    else if SameWithin(items[i].val, val, VALUE_LEN) then items
    else items[i := Pair(items[i].key, First(val, VALUE_LEN - 1))]
  }

  /** Whether configSetStr marks the set as modified. */
  predicate SetMarks(items: Items, key: string, val: string) {
    var i := IndexOf(items, key);
    && ValidKey(key)
    && (if i == |items| then key[0] != '#'
        else !SameWithin(items[i].val, val, VALUE_LEN) && (items[i].key == "" || items[i].key[0] != '#'))
  }

  /** The pairs of any other name. */
  function Others(items: Items, name: string): Items {
    if items == [] then []
    else Others(items[..|items| - 1], name) +
         if Named(items[|items| - 1], name) then [] else [items[|items| - 1]]
  }

  /** configRemoveKey: unlinks every pair of that name. */
  function Remove(items: Items, key: string): Items {
    if ValidKey(key) then Others(items, key) else items
  }

  predicate RemoveMarks(items: Items, key: string) {
    ValidKey(key) && key[0] != '#' && IndexOf(items, key) < |items|
  }

  /** configMerge: every pair of the source is set in the destination, in order. */
  function Merge(dest: Items, source: Items): Items {
    if source == [] then dest
    else Set(Merge(dest, source[..|source| - 1]), source[|source| - 1].key, source[|source| - 1].val)
  }

  predicate MergeMarks(dest: Items, source: Items) {
    source != [] &&
    (|| MergeMarks(dest, source[..|source| - 1])
     || SetMarks(Merge(dest, source[..|source| - 1]), source[|source| - 1].key, source[|source| - 1].val))
  }

  /** Setting marks the set exactly when it changes a pair that is no comment, or
      finds such a pair for a value that is cut to its field. */
  lemma SetMarksIff(items: Items, key: string, val: string)
    requires Well(items) && ValidKey(key)
    ensures
      var i := IndexOf(items, key);
      SetMarks(items, key, val) <==>
        (if i == |items| then key[0] else items[i].key[0]) != '#' &&
        (Set(items, key, val) != items || (i < |items| && |val| >= VALUE_LEN))
  {
    var i := IndexOf(items, key);
    if i < |items| {
      assert PairOk(items[i]);
      var new_ := First(val, VALUE_LEN - 1);
      if |val| < VALUE_LEN {
        assert new_ == val && First(items[i].val, VALUE_LEN) == items[i].val;
      } else {
        assert |First(val, VALUE_LEN)| == VALUE_LEN;
      }
      if items[i].val != new_ {
        assert items[i := Pair(items[i].key, new_)][i] != items[i];
      }
    }
  }

  lemma {:induction false} OthersShorter(items: Items, name: string)
    ensures |Others(items, name)| <= |items|
    ensures Others(items, name) == items <==> forall i :: 0 <= i < |items| ==> !Named(items[i], name)
  {
    if items != [] {
      OthersShorter(items[..|items| - 1], name);
      assert items == items[..|items| - 1] + [items[|items| - 1]];
    }
  }

  /** Removing marks the set exactly when it removes a pair under a key that is no comment. */
  lemma RemoveMarksIff(items: Items, key: string)
    requires ValidKey(key)
    ensures RemoveMarks(items, key) <==> key[0] != '#' && Remove(items, key) != items
  {
    OthersShorter(items, key);
  }

  // ----- Names and keys -----

  predicate PairOk(p: Pair) {
    ValidKey(p.key) && |p.key| < KEY_LEN && |p.val| < VALUE_LEN
  }

  /** What every operation keeps: keys and values fit their fields. */
  predicate Well(items: Items) {
    forall i :: 0 <= i < |items| ==> PairOk(items[i])
  }

  ghost predicate UniqueKeys(items: Items) {
    forall i, j :: 0 <= i < j < |items| ==> items[i].key != items[j].key
  }

  /** Keys of at most 31 characters. */
  predicate Short(key: string) {
    |key| < KEY_LEN
  }

  /** A short name is compared whole; a longer one names no pair at all. */
  lemma NamedIsKey(p: Pair, name: string)
    requires PairOk(p)
    ensures Named(p, name) <==> p.key == name && Short(name)
  {
    if !Short(name) {
      assert |First(name, KEY_LEN)| == KEY_LEN;
    }
  }

  lemma StoredOk(key: string, val: string)
    requires ValidKey(key)
    ensures PairOk(Stored(key, val)) && (Short(key) <==> Stored(key, val).key == key)
  {
    var k := Stored(key, val).key;
    assert forall c :: c in k ==> c in key;
  }

  lemma SetKeepsWell(items: Items, key: string, val: string)
    requires Well(items)
    ensures Well(Set(items, key, val))
  {
    hide PairOk, First;
    if ValidKey(key) {
      StoredOk(key, val);
      var i := IndexOf(items, key);
      if i < |items| {
        NewValueOk(items[i], val);
      }
    }
  }

  lemma NewValueOk(p: Pair, val: string)
    requires PairOk(p)
    ensures PairOk(Pair(p.key, First(val, VALUE_LEN - 1)))
  {}

  lemma {:induction false} OthersKeepWell(items: Items, name: string)
    requires Well(items)
    ensures Well(Others(items, name)) && forall p :: p in Others(items, name) ==> p in items
  {
    if items != [] {
      OthersKeepWell(items[..|items| - 1], name);
    }
  }

  lemma {:induction false} MergeKeepsWell(dest: Items, source: Items)
    requires Well(dest)
    ensures Well(Merge(dest, source))
  {
    if source != [] {
      var n := |source| - 1;
      MergeKeepsWell(dest, source[..n]);
      SetKeepsWell(Merge(dest, source[..n]), source[n].key, source[n].val);
    }
  }

  // ----- Keys that are too long -----

  /** A pair just appended is found again exactly when its key has at most 31 characters. */
  lemma FoundAgainIff(items: Items, key: string, val: string)
    requires Well(items) && ValidKey(key) && IndexOf(items, key) == |items|
    ensures Lookup(Set(items, key, val), key).Some? <==> Short(key)
  {
    StoredOk(key, val);
    var items', i := Set(items, key, val), IndexOf(Set(items, key, val), key);
    NamedIsKey(Stored(key, val), key);
    assert items'[|items|] == Stored(key, val);
    forall j | 0 <= j < |items| ensures !Named(items'[j], key) {
      assert items'[j] == items[j];
    }
  }

  /** A longer key gets one more pair with the same stored key every time it is set. */
  lemma LongKeyRepeats(items: Items, key: string, v1: string, v2: string)
    requires Well(items) && ValidKey(key) && !Short(key)
    ensures !UniqueKeys(Set(Set(items, key, v1), key, v2))
  {
    var once := Set(items, key, v1);
    SetKeepsWell(items, key, v1);
    NeverNamed(items, key);
    NeverNamed(once, key);
    var twice := Set(once, key, v2);
    assert twice[|items|].key == twice[|items| + 1].key;
  }

  lemma NeverNamed(items: Items, key: string)
    requires Well(items) && !Short(key)
    ensures IndexOf(items, key) == |items|
  {
    if IndexOf(items, key) < |items| {
      NamedIsKey(items[IndexOf(items, key)], key);
    }
  }

  // ----- The insertion-ordered map -----

  /** Keys in the order in which they were first set, and the value of each. */
  datatype Ordered = Ordered(keys: seq<string>, vals: map<string, string>)

  const NOTHING := Ordered([], map[])

  function Put(o: Ordered, key: string, val: string): Ordered {
    Ordered(if key in o.vals then o.keys else o.keys + [key], o.vals[key := val])
  }

  function Without(keys: seq<string>, gone: map<string, string>): seq<string> {
    if keys == [] then []
    else Without(keys[..|keys| - 1], gone) + if keys[|keys| - 1] in gone then [] else [keys[|keys| - 1]]
  }

  function Delete(o: Ordered, key: string): Ordered {
    Ordered(Without(o.keys, map[key := ""]), o.vals - {key})
  }

  /** The second map's values win; its new keys follow in their own order. */
  function Override(o1: Ordered, o2: Ordered): Ordered {
    Ordered(o1.keys + Without(o2.keys, o1.vals), o1.vals + o2.vals)
  }

  function Abstract(items: Items): Ordered {
    if items == [] then NOTHING
    else
      var before := Abstract(items[..|items| - 1]);
      Ordered(before.keys + [items[|items| - 1].key], before.vals[items[|items| - 1].key := items[|items| - 1].val])
  }

  lemma {:induction false} AbstractKeys(items: Items)
    ensures |Abstract(items).keys| == |items|
    ensures forall i :: 0 <= i < |items| ==> Abstract(items).keys[i] == items[i].key
    ensures forall k :: k in Abstract(items).vals <==> k in Abstract(items).keys
  {
    AbstractUnfolds(items);
    if items != [] {
      hide Abstract;
      AbstractKeys(items[..|items| - 1]);
    }
  }

  lemma {:induction false} AbstractValue(items: Items, i: nat)
    requires UniqueKeys(items) && i < |items|
    ensures items[i].key in Abstract(items).vals && Abstract(items).vals[items[i].key] == items[i].val
  {
    hide Abstract;
    AbstractUnfolds(items);
    var n := |items| - 1;
    if i < n {
      AbstractValue(items[..n], i);
      assert items[i].key != items[n].key;
    }
  }

  /** The map holds the keys in order and the value of each. */
  lemma AbstractAt(items: Items)
    ensures |Abstract(items).keys| == |items|
    ensures forall i :: 0 <= i < |items| ==> Abstract(items).keys[i] == items[i].key
    ensures forall k :: k in Abstract(items).vals <==> exists i :: 0 <= i < |items| && items[i].key == k
    ensures UniqueKeys(items) ==> forall i :: 0 <= i < |items| ==> Abstract(items).vals[items[i].key] == items[i].val
  {
    hide Abstract;
    AbstractKeys(items);
    var o := Abstract(items);
    forall k | k in o.vals ensures exists i :: 0 <= i < |items| && items[i].key == k {
      var i :| 0 <= i < |o.keys| && o.keys[i] == k;
      assert items[i].key == k;
    }
    forall i | 0 <= i < |items|
      ensures items[i].key in o.vals && (UniqueKeys(items) ==> o.vals[items[i].key] == items[i].val)
    {
      assert o.keys[i] == items[i].key;
      if UniqueKeys(items) {
        AbstractValue(items, i);
      }
    }
  }

  lemma AbstractUnfolds(items: Items)
    ensures Abstract(items) ==
            if items == [] then NOTHING
            else
              var before, p := Abstract(items[..|items| - 1]), items[|items| - 1];
              Ordered(before.keys + [p.key], before.vals[p.key := p.val])
  {}

  /** The pair found under a short key is the one whose key it is. */
  lemma IndexOfKey(items: Items, key: string)
    requires Well(items) && Short(key)
    ensures IndexOf(items, key) < |items| <==> key in Abstract(items).vals
    ensures IndexOf(items, key) < |items| ==> items[IndexOf(items, key)].key == key
  {
    AbstractAt(items);
    forall i | 0 <= i < |items| ensures Named(items[i], key) <==> items[i].key == key {
      NamedIsKey(items[i], key);
    }
  }

  lemma {:induction false} AbstractUpdate(items: Items, i: nat, val: string)
    requires UniqueKeys(items) && i < |items|
    ensures
      var items', o := items[i := Pair(items[i].key, val)], Abstract(items);
      UniqueKeys(items') && Abstract(items') == Ordered(o.keys, o.vals[items[i].key := val])
  {
    hide Abstract;
    var n, items' := |items| - 1, items[i := Pair(items[i].key, val)];
    AbstractUnfolds(items);
    AbstractUnfolds(items');
    if i < n {
      AbstractUpdate(items[..n], i, val);
      assert items[i].key != items[n].key;
      assert items'[..n] == items[..n][i := Pair(items[i].key, val)];
    } else {
      assert items'[..n] == items[..n];
    }
  }

  /** Setting a short key puts it in the map: its value is replaced in place, or
      the key is appended. */
  lemma SetRefines(items: Items, key: string, val: string)
    requires Well(items) && UniqueKeys(items) && ValidKey(key) && Short(key)
    ensures UniqueKeys(Set(items, key, val))
    ensures Abstract(Set(items, key, val)) == Put(Abstract(items), key, First(val, VALUE_LEN - 1))
  {
    hide First, PairOk, Named, IndexOf, ValidKey;
    var i := IndexOf(items, key);
    AbstractAt(items);
    IndexOfKey(items, key);
    if i == |items| {
      StoredOk(key, val);
      assert Set(items, key, val)[..|items|] == items;
    } else if SameWithin(items[i].val, val, VALUE_LEN) {
      SameValue(items[i], val);
      assert Abstract(items).vals[key := items[i].val] == Abstract(items).vals;
    } else {
      AbstractUpdate(items, i, First(val, VALUE_LEN - 1));
    }
  }

  lemma SameValue(p: Pair, val: string)
    requires PairOk(p) && SameWithin(p.val, val, VALUE_LEN)
    ensures First(val, VALUE_LEN - 1) == p.val
  {}

  lemma DeleteStep(o: Ordered, k: string, v: string, key: string)
    ensures Delete(Ordered(o.keys + [k], o.vals[k := v]), key) ==
            if k == key then Delete(o, key)
            else Ordered(Delete(o, key).keys + [k], Delete(o, key).vals[k := v])
  {
    assert (o.keys + [k])[..|o.keys|] == o.keys;
  }

  lemma {:induction false} OthersUnique(items: Items, name: string)
    requires UniqueKeys(items)
    ensures UniqueKeys(Others(items, name))
    ensures forall p :: p in Others(items, name) ==> p in items
  {
    if items != [] {
      var n := |items| - 1;
      var others := Others(items[..n], name);
      OthersUnique(items[..n], name);
      forall i | 0 <= i < |others| ensures others[i].key != items[n].key {
        assert others[i] in items[..n];
      }
    }
  }

  lemma AppendAbstract(items: Items, p: Pair)
    ensures Abstract(items + [p]) == Ordered(Abstract(items).keys + [p.key], Abstract(items).vals[p.key := p.val])
  {
    assert (items + [p])[..|items|] == items;
  }

  /** Removing a short key deletes it from the map and changes nothing else. */
  lemma {:induction false} OthersRefine(items: Items, key: string)
    requires Well(items) && Short(key)
    ensures Abstract(Others(items, key)) == Delete(Abstract(items), key)
  {
    hide Named, PairOk, Short, Delete, Abstract;
    if items == [] {
      NothingToDelete(key);
    } else {
      var n, last := |items| - 1, items[|items| - 1];
      OthersRefine(items[..n], key);
      NamedIsKey(last, key);
      DeleteStep(Abstract(items[..n]), last.key, last.val, key);
      AppendAbstract(items[..n], last);
      AppendAbstract(Others(items[..n], key), last);
      assert items == items[..n] + [last];
      assert Others(items[..n], key) + [] == Others(items[..n], key);
    }
  }

  lemma NothingToDelete(key: string)
    ensures Abstract([]) == NOTHING == Delete(NOTHING, key)
  {}

  lemma RemoveRefines(items: Items, key: string)
    requires Well(items) && UniqueKeys(items) && ValidKey(key) && Short(key)
    ensures UniqueKeys(Remove(items, key)) && Abstract(Remove(items, key)) == Delete(Abstract(items), key)
  {
    OthersUnique(items, key);
    OthersRefine(items, key);
  }

  lemma OverrideStep(o1: Ordered, o2: Ordered, key: string, val: string)
    requires key !in o2.vals
    ensures Override(o1, Ordered(o2.keys + [key], o2.vals[key := val])) == Put(Override(o1, o2), key, val)
  {
    assert (o2.keys + [key])[..|o2.keys|] == o2.keys;
  }

  /** Merging is a right-biased override that keeps the order of the destination,
      then that of the source. */
  lemma {:induction false} MergeRefines(dest: Items, source: Items)
    requires Well(dest) && UniqueKeys(dest) && Well(source) && UniqueKeys(source)
    ensures UniqueKeys(Merge(dest, source))
    ensures Abstract(Merge(dest, source)) == Override(Abstract(dest), Abstract(source))
  {
    if source != [] {
      var n, p := |source| - 1, source[|source| - 1];
      MergeRefines(dest, source[..n]);
      MergeKeepsWell(dest, source[..n]);
      SetRefines(Merge(dest, source[..n]), p.key, p.val);
      AbstractAt(source[..n]);
      assert p.key !in Abstract(source[..n]).vals;
      OverrideStep(Abstract(dest), Abstract(source[..n]), p.key, p.val);
    }
  }

  // ----- Runs -----

  datatype Op = DoSet(key: string, val: string) | DoRemove(key: string) | DoMerge(source: Items) | DoClear

  function Apply(items: Items, op: Op): Items {
    match op
    case DoSet(key, val) => Set(items, key, val)
    case DoRemove(key) => Remove(items, key)
    case DoMerge(source) => Merge(items, source)
    case DoClear => []
  }

  function Run(start: Items, ops: seq<Op>): Items {
    if ops == [] then start else Apply(Run(start, ops[..|ops| - 1]), ops[|ops| - 1])
  }

  /** The same operations on the map; a key that is not valid is refused. */
  function ApplyMap(o: Ordered, op: Op): Ordered {
    match op
    case DoSet(key, val) => if ValidKey(key) then Put(o, key, First(val, VALUE_LEN - 1)) else o
    case DoRemove(key) => if ValidKey(key) then Delete(o, key) else o
    case DoMerge(source) => Override(o, Abstract(source))
    case DoClear => NOTHING
  }

  function RunMap(ops: seq<Op>): Ordered {
    if ops == [] then NOTHING else ApplyMap(RunMap(ops[..|ops| - 1]), ops[|ops| - 1])
  }

  ghost predicate ShortKeys(op: Op) {
    match op
    case DoSet(key, _) => Short(key)
    case DoRemove(key) => Short(key)
    case DoMerge(source) => Well(source) && UniqueKeys(source)
    case DoClear => true
  }

  /** After any run with keys of at most 31 characters the list is the map: keys
      are unique, in order of insertion, and each lookup answers the map's value. */
  lemma {:induction false} RunRefines(ops: seq<Op>)
    requires forall i :: 0 <= i < |ops| ==> ShortKeys(ops[i])
    ensures Well(Run([], ops)) && UniqueKeys(Run([], ops)) && Abstract(Run([], ops)) == RunMap(ops)
  {
    if ops != [] {
      var n, op := |ops| - 1, ops[|ops| - 1];
      RunRefines(ops[..n]);
      var items := Run([], ops[..n]);
      match op {
        case DoSet(key, val) =>
          SetKeepsWell(items, key, val);
          if ValidKey(key) { SetRefines(items, key, val); }
        case DoRemove(key) =>
          OthersKeepWell(items, key);
          if ValidKey(key) { RemoveRefines(items, key); }
        case DoMerge(source) =>
          MergeKeepsWell(items, source);
          MergeRefines(items, source);
        case DoClear =>
      }
    }
  }

  /** configGetStr answers what the map holds. */
  lemma LookupIs(items: Items, key: string)
    requires Well(items) && UniqueKeys(items) && Short(key)
    ensures Lookup(items, key) ==
            if ValidKey(key) && key in Abstract(items).vals then Some(Abstract(items).vals[key]) else None
  {
    AbstractAt(items);
    IndexOfKey(items, key);
  }
}
