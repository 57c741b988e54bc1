/**
 The value of a Dict of src/util/oop.h, and what its operations do to it. An empty slot
 is one whose key is NULL. Lookups scan only the slots below the counter.
 */
module DictTable {
  import opened Wrappers

  datatype Entry<V> = Entry(key: string, val: V)

  datatype Table<V> = Table(slots: seq<Option<Entry<V>>>, counter: nat)

  predicate Holds<V>(slot: Option<Entry<V>>, key: string) {
    slot.Some? && slot.value.key == key
  }

  /** The number of slots in use. */
  function Occupied<V>(slots: seq<Option<Entry<V>>>): (n: nat)
    ensures n <= |slots|
  {
    if slots == [] then 0 else (if slots[0].Some? then 1 else 0) + Occupied(slots[1..])
  }

  /** What every run keeps, even one that stores NULL keys. */
  predicate Sound<V>(t: Table<V>) {
    Occupied(t.slots) <= t.counter <= |t.slots|
  }

  function Init<V>(size: nat): Table<V> {
    Table(seq(size, _ => None), 0)
  }

  /** findKey: the first slot below the counter that holds the key, or -1. */
  function Find<V>(t: Table<V>, key: Option<string>): (i: int)
    requires t.counter <= |t.slots|
    ensures -1 <= i < t.counter
    ensures i >= 0 ==> key.Some? && Holds(t.slots[i], key.value)
    ensures key.Some? ==> forall j :: 0 <= j < (if i < 0 then t.counter else i) ==> !Holds(t.slots[j], key.value)
  {
    if key.None? then -1 else FindFrom(t, key.value, 0)
  }

  function FindFrom<V>(t: Table<V>, key: string, from: nat): (i: int)
    requires from <= t.counter <= |t.slots|
    ensures i == -1 || from <= i < t.counter
    ensures i >= 0 ==> Holds(t.slots[i], key)
    ensures forall j :: from <= j < (if i < 0 then t.counter else i) ==> !Holds(t.slots[j], key)
    decreases t.counter - from
  {
    if from == t.counter then -1
    else if Holds(t.slots[from], key) then from
    else FindFrom(t, key, from + 1)
  }

  /** The first empty slot, or the size when there is none. */
  function FirstFree<V>(slots: seq<Option<Entry<V>>>): (i: nat)
    ensures i <= |slots| && forall j :: 0 <= j < i ==> slots[j].Some?
    ensures i < |slots| ==> slots[i].None?
    ensures i == |slots| <==> Occupied(slots) == |slots|
  {
    if slots == [] || slots[0].None? then 0 else 1 + FirstFree(slots[1..])
  }

  function Get<V>(t: Table<V>, key: Option<string>): Option<V>
    requires t.counter <= |t.slots|
  {
    var i := Find(t, key);
    if i < 0 then None else Some(t.slots[i].value.val)
  }

  /** setTuple. A NULL key takes no slot but is counted. */
  function Set<V>(t: Table<V>, key: Option<string>, val: V): (r: (Table<V>, int))
    requires Sound(t)
  {
    var i := Find(t, key);
    if i >= 0 then
      (t.(slots := t.slots[i := Some(Entry(key.value, val))]), 0)
    else if t.counter < |t.slots| then
      var j := FirstFree(t.slots);
      (Table(if key.Some? then t.slots[j := Some(Entry(key.value, val))] else t.slots, t.counter + 1), 0)
    else
      (t, -1)
  }

  function Remove<V>(t: Table<V>, key: Option<string>): (r: (Table<V>, int))
    requires t.counter <= |t.slots|
  {
    var i := Find(t, key);
    if i >= 0 then (Table(t.slots[i := None], t.counter - 1), 0) else (t, -1)
  }

  /* ---------- Every run ---------- */

  datatype Op<V> = SetOp(key: string, val: V) | RemoveOp(key: string)

  lemma {:induction false} OccupiedUpdate<V>(slots: seq<Option<Entry<V>>>, j: nat, slot: Option<Entry<V>>)
    requires j < |slots|
    ensures Occupied(slots[j := slot]) ==
            Occupied(slots) - (if slots[j].Some? then 1 else 0) + (if slot.Some? then 1 else 0)
  {
    if j > 0 {
      OccupiedUpdate(slots[1..], j - 1, slot);
      assert slots[j := slot][1..] == slots[1..][j - 1 := slot];
    }
  }

  lemma {:induction false} SetKeepsSound<V>(t: Table<V>, key: Option<string>, val: V)
    requires Sound(t)
    ensures Sound(Set(t, key, val).0) && |Set(t, key, val).0.slots| == |t.slots|
    ensures key.Some? ==>
              t.counter - Occupied(t.slots) == Set(t, key, val).0.counter - Occupied(Set(t, key, val).0.slots)
  {
    if key.Some? {
      var i := Find(t, key);
      if i >= 0 {
        OccupiedUpdate(t.slots, i, Some(Entry(key.value, val)));
      } else if t.counter < |t.slots| {
        OccupiedUpdate(t.slots, FirstFree(t.slots), Some(Entry(key.value, val)));
      }
    }
  }

  lemma {:induction false} RemoveKeepsSound<V>(t: Table<V>, key: Option<string>)
    requires Sound(t)
    ensures Sound(Remove(t, key).0) && |Remove(t, key).0.slots| == |t.slots|
    ensures t.counter - Occupied(t.slots) == Remove(t, key).0.counter - Occupied(Remove(t, key).0.slots)
  {
    var i := Find(t, key);
    if i >= 0 {
      OccupiedUpdate(t.slots, i, None);
    }
  }

  lemma {:induction false} InitSound<V>(size: nat)
    ensures Sound(Init<V>(size)) && Occupied(Init<V>(size).slots) == 0
  {
    if size > 0 {
      InitSound<V>(size - 1);
      assert Init<V>(size).slots[1..] == Init<V>(size - 1).slots;
    }
  }

  function Step<V>(t: Table<V>, op: Op<V>): (r: Table<V>)
    requires Sound(t)
    ensures Sound(r) && |r.slots| == |t.slots|
    ensures t.counter == Occupied(t.slots) ==> r.counter == Occupied(r.slots)
  {
    match op
    case SetOp(k, v) => SetKeepsSound(t, Some(k), v); Set(t, Some(k), v).0
    case RemoveOp(k) => RemoveKeepsSound(t, Some(k)); Remove(t, Some(k)).0
  }

  function Run<V>(t: Table<V>, ops: seq<Op<V>>): (r: Table<V>)
    requires Sound(t)
    ensures Sound(r) && |r.slots| == |t.slots|
    ensures t.counter == Occupied(t.slots) ==> r.counter == Occupied(r.slots)
    decreases |ops|
  {
    if ops == [] then t else Step(Run(t, ops[..|ops| - 1]), ops[|ops| - 1])
  }

  /** In every run the counter is the number of used slots, so a free slot is found in bounds. */
  lemma {:induction false} CounterCounts<V>(size: nat, ops: seq<Op<V>>)
    ensures Sound(Init<V>(size))
    ensures var t := Run(Init(size), ops);
            t.counter == Occupied(t.slots) && (FirstFree(t.slots) < |t.slots| <==> t.counter < size)
  {
    InitSound<V>(size);
  }

  lemma {:induction false} OccupiedConcat<V>(a: seq<Option<Entry<V>>>, b: seq<Option<Entry<V>>>)
    ensures Occupied(a + b) == Occupied(a) + Occupied(b)
  {
    if a == [] {
      assert a + b == b;
    } else {
      OccupiedConcat(a[1..], b);
      assert (a + b)[1..] == a[1..] + b;
    }
  }

  lemma {:induction false} OccupiedSplit<V>(slots: seq<Option<Entry<V>>>, n: nat)
    requires n <= |slots|
    ensures Occupied(slots) == Occupied(slots[..n]) + Occupied(slots[n..])
  {
    OccupiedConcat(slots[..n], slots[n..]);
    assert slots == slots[..n] + slots[n..];
  }

  /** In every run the entries hidden from lookups are as many as the holes below the counter. */
  lemma {:induction false} HiddenAreHoles<V>(size: nat, ops: seq<Op<V>>)
    ensures Sound(Init<V>(size))
    ensures var t := Run(Init(size), ops);
            Occupied(t.slots[t.counter..]) == t.counter - Occupied(t.slots[..t.counter])
  {
    CounterCounts(size, ops);
    var t := Run(Init(size), ops);
    OccupiedSplit(t.slots, t.counter);
  }

  /* ---------- What one call changes, in any table ---------- */

  /** Slot j, the lowest one with the property, is the only one that differs. */
  ghost predicate ChangesOnly<V>(t: Table<V>, t': Table<V>, j: nat, slot: Option<Entry<V>>) {
    && |t'.slots| == |t.slots| && j < |t.slots| && t'.slots[j] == slot
    && forall i :: 0 <= i < |t.slots| && i != j ==> t'.slots[i] == t.slots[i]
  }

  /** setTuple fails only when the key is not seen and no slot is left; otherwise the key is seen with its value. */
  lemma {:induction false} SetInAnyTable<V>(t: Table<V>, key: string, val: V)
    requires Sound(t)
    ensures var (t', r) := Set(t, Some(key), val);
            t'.counter <= |t'.slots| &&
            var seen := Get(t, Some(key)).Some?;
            if !seen && t.counter == |t.slots| then r == -1 && t' == t
            else
              && r == 0 && Get(t', Some(key)) == Some(val)
              && t'.counter == (if seen then t.counter else t.counter + 1)
              && exists j: nat :: ChangesOnly(t, t', j, Some(Entry(key, val))) &&
                   (if seen then j < t.counter && Holds(t.slots[j], key) else t.slots[j].None?) &&
                   forall i :: 0 <= i < j ==> if seen then !Holds(t.slots[i], key) else t.slots[i].Some?
  {
    SetKeepsSound(t, Some(key), val);
    var i, t' := Find(t, Some(key)), Set(t, Some(key), val).0;
    if i >= 0 {
      assert ChangesOnly(t, t', i, Some(Entry(key, val)));
      FindIs(t', key, i);
    } else if t.counter < |t.slots| {
      var j := FirstFree(t.slots);
      FirstFreeVisible(t.slots);
      assert ChangesOnly(t, t', j, Some(Entry(key, val)));
      FindIs(t', key, j);
    }
  }

  lemma {:induction false} FirstFreeVisible<V>(slots: seq<Option<Entry<V>>>)
    ensures FirstFree(slots) <= Occupied(slots)
  {
    if slots != [] && slots[0].Some? {
      FirstFreeVisible(slots[1..]);
    }
  }

  /** A NULL key stores nothing but is counted while there is room. */
  lemma {:induction false} SetNullKey<V>(t: Table<V>, val: V)
    requires Sound(t)
    ensures Set(t, None, val) == if t.counter < |t.slots| then (t.(counter := t.counter + 1), 0) else (t, -1)
  {
  }

  /** removeTuple empties the first slot that shows the key and lowers the counter, or fails. */
  lemma {:induction false} RemoveInAnyTable<V>(t: Table<V>, key: string)
    requires t.counter <= |t.slots|
    ensures var (t', r) := Remove(t, Some(key));
            if Get(t, Some(key)).None? then r == -1 && t' == t
            else
              && r == 0 && t'.counter == t.counter - 1
              && exists j: nat :: ChangesOnly(t, t', j, None) && j < t.counter && Holds(t.slots[j], key) &&
                   forall i :: 0 <= i < j ==> !Holds(t.slots[i], key)
    ensures Remove(t, None) == (t, -1)
  {
    var i := Find(t, Some(key));
    if i >= 0 {
      assert ChangesOnly(t, Remove(t, Some(key)).0, i, None);
    }
  }

  /* ---------- Agreement with a finite map ---------- */

  /** The used slots are exactly those below the counter, and no key is stored twice. */
  predicate Compact<V>(t: Table<V>) {
    && t.counter <= |t.slots|
    && (forall i :: 0 <= i < |t.slots| ==> (t.slots[i].Some? <==> i < t.counter))
    && (forall i, j :: 0 <= i < j < t.counter ==> t.slots[i].value.key != t.slots[j].value.key)
  }

  /** The entries below n, the first one winning when a key is repeated. */
  function ViewBelow<V>(slots: seq<Option<Entry<V>>>, n: nat): map<string, V>
    requires n <= |slots|
  {
    if n == 0 then map[]
    else
      var m := ViewBelow(slots, n - 1);
      if slots[n - 1].Some? && slots[n - 1].value.key !in m
      then m[slots[n - 1].value.key := slots[n - 1].value.val]
      else m
  }

  /** The map that getTuple shows. */
  function View<V>(t: Table<V>): map<string, V>
    requires t.counter <= |t.slots|
  {
    ViewBelow(t.slots, t.counter)
  }

  lemma {:induction false} ViewBelowAt<V>(slots: seq<Option<Entry<V>>>, n: nat, i: nat, key: string)
    requires i <= n <= |slots|
    requires forall j :: 0 <= j < i ==> !Holds(slots[j], key)
    ensures key !in ViewBelow(slots, i)
    ensures i < n && Holds(slots[i], key) ==>
              key in ViewBelow(slots, n) && ViewBelow(slots, n)[key] == slots[i].value.val
    decreases n
  {
    if n > i {
      ViewBelowAt(slots, n - 1, i, key);
    } else if n > 0 {
      ViewBelowAt(slots, n - 1, i - 1, key);
    }
  }

  /** getTuple answers from the map, for every table. */
  lemma {:induction false} GetIsView<V>(t: Table<V>, key: string)
    requires t.counter <= |t.slots|
    ensures Get(t, Some(key)) == if key in View(t) then Some(View(t)[key]) else None
    ensures Get(t, None) == None
  {
    var i := Find(t, Some(key));
    ViewBelowAt(t.slots, t.counter, if i < 0 then t.counter else i, key);
  }

  lemma {:induction false} CompactSound<V>(t: Table<V>)
    requires Compact(t)
    ensures Sound(t) && Occupied(t.slots) == t.counter && FirstFree(t.slots) == t.counter
    decreases |t.slots|
  {
    if t.slots != [] {
      var rest := Table(t.slots[1..], if t.counter == 0 then 0 else t.counter - 1);
      assert forall i :: 0 <= i < |rest.slots| ==> rest.slots[i] == t.slots[i + 1];
      CompactSound(rest);
    }
  }

  /** In a compact table the map has as many keys as the counter says. */
  lemma {:induction false} ViewSize<V>(t: Table<V>, n: nat)
    requires Compact(t) && n <= t.counter
    ensures |ViewBelow(t.slots, n)| == n
  {
    if n > 0 {
      ViewSize(t, n - 1);
      ViewBelowAt(t.slots, n - 1, n - 1, t.slots[n - 1].value.key);
    }
  }

  lemma {:induction false} ViewBelowFrame<V>(s: seq<Option<Entry<V>>>, s': seq<Option<Entry<V>>>, n: nat)
    requires n <= |s| && n <= |s'| && forall i :: 0 <= i < n ==> s[i] == s'[i]
    ensures ViewBelow(s, n) == ViewBelow(s', n)
  {
    if n > 0 {
      ViewBelowFrame(s, s', n - 1);
    }
  }

  /** A used slot whose key is new adds its entry. */
  lemma {:induction false} ViewSnoc<V>(slots: seq<Option<Entry<V>>>, n: nat, e: Entry<V>)
    requires n < |slots| && slots[n] == Some(e) && forall j :: 0 <= j < n ==> !Holds(slots[j], e.key)
    ensures e.key !in ViewBelow(slots, n) && ViewBelow(slots, n + 1) == ViewBelow(slots, n)[e.key := e.val]
  {
    ViewBelowAt(slots, n, n, e.key);
  }

  lemma {:induction false} MapErase<V>(m: map<string, V>, a: string, b: string, y: V)
    requires a != b
    ensures m[b := y] - {a} == (m - {a})[b := y]
  {
  }

  lemma {:induction false} MapExchange<V>(m: map<string, V>, a: string, k: string, v: V, b: string, y: V)
    requires a != b && k != b
    ensures (m[b := y] - {a})[k := v] == (m - {a})[k := v][b := y]
  {
  }

  /** Emptying slot i takes its key out of the map. */
  lemma {:induction false} ViewErase<V>(t: Table<V>, i: nat, n: nat)
    requires Compact(t) && i < n <= t.counter
    ensures ViewBelow(t.slots[i := None], n) == ViewBelow(t.slots, n) - {t.slots[i].value.key}
  {
    var slots', m, e := t.slots[i := None], ViewBelow(t.slots, n - 1), t.slots[n - 1].value;
    ViewSnoc(t.slots, n - 1, e);
    if n - 1 == i {
      ViewBelowFrame(t.slots, slots', i);
      assert m[e.key := e.val] - {e.key} == m;
    } else {
      ViewErase(t, i, n - 1);
      ViewSnoc(slots', n - 1, e);
      MapErase(m, t.slots[i].value.key, e.key, e.val);
    }
  }

  /** Overwriting slot i exchanges its entry in the map. */
  lemma {:induction false} ViewReplace<V>(t: Table<V>, i: nat, n: nat, added: Entry<V>)
    requires Compact(t) && i < n <= t.counter
    requires forall j :: 0 <= j < t.counter && j != i ==> !Holds(t.slots[j], added.key)
    ensures ViewBelow(t.slots[i := Some(added)], n) ==
            (ViewBelow(t.slots, n) - {t.slots[i].value.key})[added.key := added.val]
  {
    var slots', m, e := t.slots[i := Some(added)], ViewBelow(t.slots, n - 1), t.slots[n - 1].value;
    ViewSnoc(t.slots, n - 1, e);
    if n - 1 == i {
      ViewBelowFrame(t.slots, slots', i);
      ViewSnoc(slots', i, added);
      assert m[e.key := e.val] - {e.key} == m;
    } else {
      ViewReplace(t, i, n - 1, added);
      assert !Holds(t.slots[n - 1], added.key);
      ViewSnoc(slots', n - 1, e);
      MapExchange(m, t.slots[i].value.key, added.key, added.val, e.key, e.val);
    }
  }

  lemma {:induction false} ReplaceAgrees<V>(t: Table<V>, i: nat, key: string, val: V)
    requires Compact(t) && i < t.counter
    requires forall j :: 0 <= j < t.counter && j != i ==> t.slots[j].value.key != key
    ensures var t' := t.(slots := t.slots[i := Some(Entry(key, val))]);
            Compact(t') && View(t') == (View(t) - {t.slots[i].value.key})[key := val]
  {
    ViewReplace(t, i, t.counter, Entry(key, val));
  }

  lemma {:induction false} AppendAgrees<V>(t: Table<V>, key: string, val: V)
    requires Compact(t) && t.counter < |t.slots| && Find(t, Some(key)) < 0
    ensures var t' := Table(t.slots[t.counter := Some(Entry(key, val))], t.counter + 1);
            Compact(t') && View(t') == View(t)[key := val] && key !in View(t)
  {
    var slots' := t.slots[t.counter := Some(Entry(key, val))];
    ViewBelowFrame(t.slots, slots', t.counter);
    ViewBelowAt(t.slots, t.counter, t.counter, key);
    forall j | 0 <= j < t.counter ensures slots'[j].value.key != key {
      assert !Holds(t.slots[j], key);
    }
  }

  /** On a compact table, setting updates the map; it fails only for a new key at full size. */
  lemma {:induction false} SetAgrees<V>(t: Table<V>, key: string, val: V)
    requires Compact(t)
    ensures Sound(t)
    ensures var (t', r) := Set(t, Some(key), val);
            Compact(t') &&
            if key in View(t) || |View(t)| < |t.slots| then r == 0 && View(t') == View(t)[key := val]
            else r == -1 && t' == t
  {
    CompactSound(t);
    ViewSize(t, t.counter);
    GetIsView(t, key);
    var i := Find(t, Some(key));
    if i >= 0 {
      ReplaceAgrees(t, i, key, val);
    } else if t.counter < |t.slots| {
      AppendAgrees(t, key, val);
    }
  }

  /** On a compact table, removing agrees with the map exactly when it takes the highest used slot. */
  lemma {:induction false} RemoveAgreesIff<V>(t: Table<V>, key: string)
    requires Compact(t)
    ensures var (t', r) := Remove(t, Some(key));
            var top := Find(t, Some(key)) == -1 || Find(t, Some(key)) == t.counter - 1;
            && r == (if key in View(t) then 0 else -1)
            && (View(t') == View(t) - {key} <==> top)
            && (Compact(t') <==> top)
  {
    GetIsView(t, key);
    var i := Find(t, Some(key));
    if i >= 0 {
      var n := t.counter - 1;
      var last := t.slots[n].value.key;
      ViewErase(t, i, t.counter);
      ViewBelowAt(t.slots, n, n, last);
      if i < n {
        ViewErase(t, i, n);
        assert last in View(t) - {key};
        assert !Compact(Remove(t, Some(key)).0);
      }
    }
  }

  /** A removal below the top also hides the entry in the highest used slot, and no other. */
  lemma {:induction false} MidRemoveHidesLast<V>(t: Table<V>, key: string)
    requires Compact(t) && 0 <= Find(t, Some(key)) < t.counter - 1
    ensures var t' := Remove(t, Some(key)).0;
            var last := t.slots[t.counter - 1].value;
            && last.key != key && last.key in View(t)
            && View(t') == View(t) - {key, last.key}
            && t'.slots[t.counter - 1] == Some(last)
  {
    var i, n := Find(t, Some(key)), t.counter - 1;
    ViewErase(t, i, n);
    ViewBelowAt(t.slots, n, n, t.slots[n].value.key);
  }

  lemma {:induction false} FirstFreeIs<V>(slots: seq<Option<Entry<V>>>, i: nat)
    requires i < |slots| && slots[i].None? && forall j :: 0 <= j < i ==> slots[j].Some?
    ensures FirstFree(slots) == i
  {
  }

  ghost predicate Stored<V>(slots: seq<Option<Entry<V>>>, key: string) {
    exists i :: 0 <= i < |slots| && Holds(slots[i], key)
  }

  /** Removing leaves a hole, which is then the first free slot. */
  lemma {:induction false} HoleAfterRemove<V>(t: Table<V>, key: string, i: nat)
    requires Compact(t) && Find(t, Some(key)) == i
    ensures var hole := Remove(t, Some(key)).0;
            hole == Table(t.slots[i := None], t.counter - 1) && Sound(hole) && FirstFree(hole.slots) == i
  {
    CompactSound(t);
    RemoveKeepsSound(t, Some(key));
    FirstFreeIs(t.slots[i := None], i);
  }

  /** A key that is not seen goes into the hole. */
  lemma {:induction false} SetInHole<V>(t: Table<V>, key: string, i: nat, other: string, val: V)
    requires Compact(t) && Find(t, Some(key)) == i && Find(Remove(t, Some(key)).0, Some(other)) == -1
    ensures Sound(Remove(t, Some(key)).0)
    ensures Set(Remove(t, Some(key)).0, Some(other), val) ==
            (Table(t.slots[i := Some(Entry(other, val))], t.counter), 0)
  {
    HoleAfterRemove(t, key, i);
    assert t.slots[i := None][i := Some(Entry(other, val))] == t.slots[i := Some(Entry(other, val))];
  }

  /** Inserting a key that is stored nowhere fills the hole and brings the hidden entry back. */
  lemma {:induction false} InsertRestores<V>(t: Table<V>, key: string, other: string, val: V)
    requires Compact(t) && Find(t, Some(key)) >= 0
    requires !Stored(Remove(t, Some(key)).0.slots, other)
    ensures Sound(Remove(t, Some(key)).0)
    ensures var (t', r) := Set(Remove(t, Some(key)).0, Some(other), val);
            r == 0 && Compact(t') && View(t') == (View(t) - {key})[other := val]
  {
    var i, hole := Find(t, Some(key)), Remove(t, Some(key)).0;
    assert Find(hole, Some(other)) == -1;
    SetInHole(t, key, i, other, val);
    forall j | 0 <= j < t.counter && j != i ensures t.slots[j].value.key != other {
      assert !Holds(hole.slots[j], other);
    }
    ReplaceAgrees(t, i, other, val);
  }

  /* ---------- Runs that agree with a bounded map ---------- */

  function MapStep<V>(m: map<string, V>, size: nat, op: Op<V>): map<string, V> {
    match op
    case SetOp(k, v) => if k in m || |m| < size then m[k := v] else m
    case RemoveOp(k) => m - {k}
  }

  function MapRun<V>(size: nat, ops: seq<Op<V>>): map<string, V>
    decreases |ops|
  {
    if ops == [] then map[] else MapStep(MapRun(size, ops[..|ops| - 1]), size, ops[|ops| - 1])
  }

  /** Every removal in the run takes the highest used slot, or removes nothing. */
  predicate TopRun<V>(t: Table<V>, ops: seq<Op<V>>)
    requires Sound(t)
    decreases |ops|
  {
    ops != [] ==>
      var n := |ops| - 1;
      var t' := Run(t, ops[..n]);
      TopRun(t, ops[..n]) &&
      (ops[n].RemoveOp? ==> Find(t', Some(ops[n].key)) == -1 || Find(t', Some(ops[n].key)) == t'.counter - 1)
  }

  lemma {:induction false} RunAgrees<V>(size: nat, ops: seq<Op<V>>)
    requires Sound(Init<V>(size)) && TopRun(Init(size), ops)
    ensures Compact(Run(Init(size), ops))
    ensures View(Run(Init(size), ops)) == MapRun(size, ops)
    decreases |ops|
  {
    if ops != [] {
      var n := |ops| - 1;
      RunAgrees(size, ops[..n]);
      var t := Run(Init(size), ops[..n]);
      match ops[n] {
        case SetOp(k, v) => SetAgrees(t, k, v);
        case RemoveOp(k) => RemoveAgreesIff(t, k);
      }
    }
  }

  /** The run shows the bounded map now and after each of its prefixes. */
  ghost predicate AgreesThroughout<V>(size: nat, ops: seq<Op<V>>)
    requires Sound(Init<V>(size))
    decreases |ops|
  {
    View(Run(Init(size), ops)) == MapRun(size, ops) &&
    (ops != [] ==> AgreesThroughout(size, ops[..|ops| - 1]))
  }

  lemma {:induction false} LastStepAgreesIff<V>(t: Table<V>, size: nat, op: Op<V>)
    requires Compact(t) && Sound(t) && |t.slots| == size
    ensures View(Step(t, op)) == MapStep(View(t), size, op) <==>
            (op.RemoveOp? ==> Find(t, Some(op.key)) == -1 || Find(t, Some(op.key)) == t.counter - 1)
  {
    match op {
      case SetOp(k, v) => SetAgrees(t, k, v);
      case RemoveOp(k) => RemoveAgreesIff(t, k);
    }
  }

  /** A run agrees with the map throughout exactly when every removal takes the highest used slot. */
  lemma {:induction false} RunAgreesIff<V>(size: nat, ops: seq<Op<V>>)
    ensures Sound(Init<V>(size))
    ensures TopRun(Init(size), ops) <==> AgreesThroughout(size, ops)
    decreases |ops|
  {
    InitSound<V>(size);
    if ops != [] {
      var n := |ops| - 1;
      RunAgreesIff(size, ops[..n]);
      if TopRun(Init(size), ops[..n]) {
        RunAgrees(size, ops[..n]);
        LastStepAgreesIff(Run(Init(size), ops[..n]), size, ops[n]);
      }
    }
  }

  lemma {:induction false} FindIs<V>(t: Table<V>, key: string, i: nat)
    requires i < t.counter <= |t.slots| && Holds(t.slots[i], key)
    requires forall j :: 0 <= j < i ==> !Holds(t.slots[j], key)
    ensures Find(t, Some(key)) == i
  {
  }

  /** Setting the hidden key stores it a second time, in the hole; removing it makes the hole again. */
  lemma {:induction false} HiddenKeySetAndRemoved<V>(t: Table<V>, key: string, val: V)
    requires Compact(t) && 0 <= Find(t, Some(key)) < t.counter - 1
    ensures var last, t1 := t.slots[t.counter - 1].value.key, Remove(t, Some(key)).0;
            Sound(t1) && Find(t1, Some(last)) == -1 &&
            var t2 := Set(t1, Some(last), val).0;
            t2.counter == t.counter && |t2.slots| == |t.slots| && Remove(t2, Some(last)).0 == t1
  {
    var i, last := Find(t, Some(key)), t.slots[t.counter - 1].value.key;
    HoleAfterRemove(t, key, i);
    LastIsHidden(t, key);
    SetInHole(t, key, i, last, val);
    var t2 := Table(t.slots[i := Some(Entry(last, val))], t.counter);
    FindIs(t2, last, i);
    assert t2.slots[i := None] == t.slots[i := None];
  }

  lemma {:induction false} LastIsHidden<V>(t: Table<V>, key: string)
    requires Compact(t) && 0 <= Find(t, Some(key)) < t.counter - 1
    ensures Find(Remove(t, Some(key)).0, Some(t.slots[t.counter - 1].value.key)) == -1
  {
  }

  /**
   After a removal below the top, the hidden key can be set and removed again and still
   returns with its old value as soon as a new key is inserted. No map does that.
   */
  lemma {:induction false} RemovedKeyReturns<V>(t: Table<V>, key: string, val: V, other: string, val': V)
    requires Compact(t) && 0 <= Find(t, Some(key)) < t.counter - 1
    requires !Stored(Remove(t, Some(key)).0.slots, other)
    ensures var last, t1 := t.slots[t.counter - 1].value, Remove(t, Some(key)).0;
            Sound(t1) &&
            var t2 := Set(t1, Some(last.key), val).0;
            t2.counter <= |t2.slots| &&
            var t3 := Remove(t2, Some(last.key)).0;
            Sound(t3) && Get(t3, Some(last.key)) == None &&
            Get(Set(t3, Some(other), val').0, Some(last.key)) == Some(last.val)
  {
    HiddenKeySetAndRemoved(t, key, val);
    LastReturns(t, key, other, val');
  }

  lemma {:induction false} LastInView<V>(t: Table<V>)
    requires Compact(t) && t.counter > 0
    ensures var last := t.slots[t.counter - 1].value;
            last.key in View(t) && View(t)[last.key] == last.val
  {
    ViewSnoc(t.slots, t.counter - 1, t.slots[t.counter - 1].value);
  }

  lemma {:induction false} LastReturns<V>(t: Table<V>, key: string, other: string, val: V)
    requires Compact(t) && 0 <= Find(t, Some(key)) < t.counter - 1
    requires !Stored(Remove(t, Some(key)).0.slots, other)
    ensures var last, t1 := t.slots[t.counter - 1].value, Remove(t, Some(key)).0;
            Sound(t1) && Get(Set(t1, Some(other), val).0, Some(last.key)) == Some(last.val)
  {
    var t1, last := Remove(t, Some(key)).0, t.slots[t.counter - 1].value.key;
    InsertRestores(t, key, other, val);
    LastInView(t);
    assert Holds(t1.slots[t.counter - 1], last);
    GetIsView(Set(t1, Some(other), val).0, last);
  }
}
