/** The doubling int vector of src/util/vector.c; the increment vector is the same code. */
module IntVector {
  import opened CTypes
  import opened Wrappers
  import opened NumberTheory

  /** What a vector holds, the room it has, and how many elements regrowth has moved so far. */
  datatype State = State(contents: seq<int>, capacity: nat, moved: nat)

  function Init(capacity: nat): State {
    State([], capacity, 0)
  }

  /** A full vector moves its elements to twice the room before the value goes in. */
  function Appended(s: State, value: int): State {
    if |s.contents| >= s.capacity
    then State(s.contents + [value], 2 * s.capacity, s.moved + |s.contents|)
    else s.(contents := s.contents + [value])
  }

  /** Appends zeros until the index exists. */
  function ZeroFill(s: State, index: nat): (r: State)
    ensures |r.contents| > index
    decreases index + 1 - |s.contents|
  {
    if index >= |s.contents| then ZeroFill(Appended(s, 0), index) else s
  }

  function Assigned(s: State, index: nat, value: int): State {
    var r := ZeroFill(s, index);
    r.(contents := r.contents[index := value])
  }

  /** k turns of the zero-fill loop. */
  function Zeros(s: State, k: nat): State {
    if k == 0 then s else Appended(Zeros(s, k - 1), 0)
  }

  /**
   A negative index is compared with the size as a size_t. The loop then goes on as long as the
   size is at most 2^64 + index, and ints that many take more bytes than a size_t can count.
   */
  lemma {:induction false} NegativeIndexFills(s: State, index: int, k: nat)
    requires IsInt(index) && index < 0
    ensures ToUlong(index) >= |Zeros(s, k).contents| <==> |s.contents| + k <= ULONG_RANGE + index
    ensures 4 * ToUlong(index) > ULONG_RANGE
  {
    ZerosSize(s, k);
  }

  lemma {:induction false} ZerosSize(s: State, k: nat)
    ensures |Zeros(s, k).contents| == |s.contents| + k
  {
    if k > 0 {
      ZerosSize(s, k - 1);
    }
  }

  class Vector {
    var size: nat
    var capacity: nat
    var data: array<int>
    ghost var moved: nat

    ghost predicate Valid()
      reads this
    {
      size <= capacity == data.Length
    }

    ghost function Value(): State
      requires Valid()
      reads this, data
    {
      State(data[..size], capacity, moved)
    }

    constructor (initial: nat)
      ensures Valid() && fresh(data) && Value() == Init(initial)
    {
      size, capacity, moved := 0, initial, 0;
      data := new int[initial];
    }

    /** realloc to twice the room; the element values survive. No room stays no room. */
    method Resize()
      requires Valid()
      modifies this`capacity, this`data, this`moved
      ensures Valid() && (data == old(data) || fresh(data))
      ensures size < capacity <==> old(capacity) >= 1
      ensures data[..size] == old(data[..size])
      ensures if size >= old(capacity) then capacity == 2 * old(capacity) && moved == old(moved) + size
              else capacity == old(capacity) && moved == old(moved)
    {
      if size >= capacity {
        var bigger := new int[2 * capacity];
        for i := 0 to size
          modifies bigger
          invariant forall j :: 0 <= j < i ==> bigger[j] == data[j]
        {
          bigger[i] := data[i];
        }
        capacity := 2 * capacity;
        data := bigger;
        moved := moved + size;
      }
    }

    /** Without room the C code writes past its memory, since doubling 0 gains none. */
    method Append(value: int)
      requires Valid() && capacity >= 1
      modifies this, data
      ensures Valid() && (data == old(data) || fresh(data))
      ensures Value() == Appended(old(Value()), value)
    {
      Resize();
      data[size] := value;
      size := size + 1;
    }

    /** An index out of bounds ends the C program; None stands for that. */
    method Get(index: int) returns (value: Option<int>)
      requires Valid()
      ensures value == if 0 <= index < size then Some(Value().contents[index]) else None
    {
      return if index >= size || index < 0 then None else Some(data[index]);
    }

    /** For a negative C index the zero-fill does not stop: see NegativeIndexFills. */
    method Set(index: nat, value: int)
      requires Valid() && capacity >= 1
      modifies this, data
      ensures Valid() && (data == old(data) || fresh(data))
      ensures Value() == Assigned(old(Value()), index, value)
    {
      while index >= size
        invariant Valid() && capacity >= 1 && (data == old(data) || fresh(data))
        invariant ZeroFill(Value(), index) == ZeroFill(old(Value()), index)
        decreases index + 1 - size
      {
        Append(0);
      }
      ghost var filled := data[..size];
      data[index] := value;
      assert data[..size] == filled[index := value];
    }
  }

  /* ---------- Every run ---------- */

  datatype Op = AppendOp(value: int) | SetOp(index: nat, value: int)

  /** The sequence a run is to build. */
  function Extended(s: seq<int>, op: Op): seq<int> {
    match op
    case AppendOp(v) => s + [v]
    case SetOp(i, v) =>
      if i < |s| then s[i := v] else s + seq(i - |s|, _ => 0) + [v]
  }

  function Step(s: State, op: Op): State {
    match op
    case AppendOp(v) => Appended(s, v)
    case SetOp(i, v) => Assigned(s, i, v)
  }

  function Run(s: State, ops: seq<Op>): State
    decreases |ops|
  {
    if ops == [] then s else Step(Run(s, ops[..|ops| - 1]), ops[|ops| - 1])
  }

  function Built(ops: seq<Op>): seq<int>
    decreases |ops|
  {
    if ops == [] then [] else Extended(Built(ops[..|ops| - 1]), ops[|ops| - 1])
  }

  /** The room is c doubled some number of times, less than twice what is needed, and the
      elements moved are exactly the room gained. */
  ghost predicate Grown(s: State, c: nat) {
    && (exists k: nat :: s.capacity == c * Pow(2, k))
    && |s.contents| <= s.capacity
    && s.moved + c == s.capacity
    && (s.capacity == c || s.capacity < 2 * |s.contents|)
  }

  lemma {:induction false} AppendGrows(s: State, value: int, c: nat)
    requires Grown(s, c) && c >= 1
    ensures Grown(Appended(s, value), c)
  {
    var k: nat :| s.capacity == c * Pow(2, k);
    if |s.contents| >= s.capacity {
      assert Pow(2, k + 1) == 2 * Pow(2, k);
      assert Appended(s, value).capacity == c * Pow(2, k + 1);
    }
  }

  lemma {:induction false} ZeroFillGrows(s: State, index: nat, c: nat)
    requires Grown(s, c) && c >= 1
    ensures Grown(ZeroFill(s, index), c)
    ensures ZeroFill(s, index).contents ==
            if index < |s.contents| then s.contents else s.contents + seq(index + 1 - |s.contents|, _ => 0)
    decreases index + 1 - |s.contents|
  {
    if index >= |s.contents| {
      AppendGrows(s, 0, c);
      ZeroFillGrows(Appended(s, 0), index, c);
    }
  }

  /** Every run from capacity c >= 1 builds its sequence, and regrowth stays cheap. */
  lemma {:induction false} RunRefinesSequence(c: nat, ops: seq<Op>)
    requires c >= 1
    ensures var s := Run(Init(c), ops);
            && s.contents == Built(ops)
            && Grown(s, c)
            && s.capacity <= (if c > 2 * |s.contents| then c else 2 * |s.contents|)
            && s.moved <= 2 * |s.contents|
    decreases |ops|
  {
    if ops == [] {
      assert c == c * Pow(2, 0);
    } else {
      var s := Run(Init(c), ops[..|ops| - 1]);
      RunRefinesSequence(c, ops[..|ops| - 1]);
      match ops[|ops| - 1] {
        case AppendOp(v) => AppendGrows(s, v, c);
        case SetOp(i, v) => ZeroFillGrows(s, i, c);
      }
    }
  }
}
