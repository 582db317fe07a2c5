/** The direct-mapped cache from program counters to executable code. */
module ChainCache {
  import opened Wrappers

  datatype Entry<V> = Entry(key: nat, value: V)

  type Table<V> = seq<Entry<V>>

  /** The slot of a key: two low bits dropped, then the low bits of a power of two. */
  function Index(n: nat, key: nat): (i: nat)
    requires n > 0
    ensures i < n
  {
    key / 4 % n
  }

  /** Keys share a slot exactly when their instruction numbers are a multiple of the table's size apart. */
  lemma {:induction false} SharesSlot(n: nat, a: nat, b: nat)
    requires n > 0
    ensures Index(n, a) == Index(n, b) <==> (a / 4 - b / 4) % n == 0
  {
    var x, y := a / 4, b / 4;
    var p, q := x / n, y / n;
    assert x == p * n + x % n && y == q * n + y % n;
    Distributes(n, q, p);
    assert x - y == (p - q) * n + (x % n - y % n);
    if x % n >= y % n {
      ModuloIs(x - y, n, p - q, x % n - y % n);
    } else {
      assert (p - q - 1) * n == (p - q) * n - n;
      ModuloIs(x - y, n, p - q - 1, x % n - y % n + n);
    }
  }

  /** So the addresses of as many consecutive instructions as there are slots never take each other's. */
  lemma {:induction false} NeighboursKept(n: nat, key: nat, i: nat, j: nat)
    requires n > 0 && i < j < n
    ensures Index(n, key + 4 * i) != Index(n, key + 4 * j)
  {
    SharesSlot(n, key + 4 * j, key + 4 * i);
    assert (key + 4 * j) / 4 == key / 4 + j && (key + 4 * i) / 4 == key / 4 + i;
  }

  function Insert<V>(table: Table<V>, key: nat, value: V): (table': Table<V>)
    requires table != []
    ensures |table'| == |table|
  {
    table[Index(|table|, key) := Entry(key, value)]
  }

  /** Every key is replaced; the values stay. */
  function FillKeys<V>(table: Table<V>, key: nat): Table<V> {
    seq(|table|, i requires 0 <= i < |table| => Entry(key, table[i].value))
  }

  function Get<V>(table: Table<V>, key: nat): Option<V>
    requires table != []
  {
    var e := table[Index(|table|, key)];
    if e.key == key then Some(e.value) else None
  }

  datatype Op<V> = Inserted(key: nat, value: V) | Filled(key: nat)

  function Replay<V>(table: Table<V>, history: seq<Op<V>>): (table': Table<V>)
    requires table != []
    ensures |table'| == |table|
  {
    if history == [] then table
    else
      var before := Replay(table, history[..|history| - 1]);
      match history[|history| - 1]
      case Inserted(k, v) => Insert(before, k, v)
      case Filled(k) => FillKeys(before, k)
  }

  /** The latest value inserted for each key since the last fill. */
  function Latest<V>(history: seq<Op<V>>): map<nat, V> {
    if history == [] then map[]
    else
      var before := Latest(history[..|history| - 1]);
      match history[|history| - 1]
      case Inserted(k, v) => before[k := v]
      case Filled(_) => map[]
  }

  /** The key that was inserted last into each slot since the last fill. */
  function LastIn<V>(n: nat, history: seq<Op<V>>, slot: nat): Option<nat>
    requires n > 0
  {
    if history == [] then None
    else
      match history[|history| - 1]
      case Inserted(k, _) => if Index(n, k) == slot then Some(k) else LastIn(n, history[..|history| - 1], slot)
      case Filled(_) => None
  }

  lemma {:induction false} ReplayAppend<V>(table: Table<V>, a: seq<Op<V>>, b: seq<Op<V>>)
    requires table != []
    ensures Replay(table, a + b) == Replay(Replay(table, a), b)
    decreases |b|
  {
    if b == [] {
      assert a + b == a;
    } else {
      var last := |b| - 1;
      assert (a + b)[..|a + b| - 1] == a + b[..last] && (a + b)[|a + b| - 1] == b[last];
      ReplayAppend(table, a, b[..last]);
    }
  }

  /** A lookup gives the latest value inserted for the key since the last fill, unless another key has
      taken its slot since; the key used for filling is never looked up. */
  lemma {:induction false} GetIsLatest<V>(table: Table<V>, history: seq<Op<V>>, key: nat)
    requires table != [] && forall i :: 0 <= i < |table| ==> table[i].key != key
    requires forall op <- history :: op.Filled? ==> op.key != key
    ensures LastIn(|table|, history, Index(|table|, key)) == Some(key) ==> key in Latest(history)
    ensures Get(Replay(table, history), key) ==
            if LastIn(|table|, history, Index(|table|, key)) == Some(key) then Some(Latest(history)[key]) else None
    decreases |history|
  {
    hide Index;
    if history != [] {
      var before, op := history[..|history| - 1], history[|history| - 1];
      GetIsLatest(table, before, key);
      assert op in history;
    }
  }

  class DirectMappedCache<V> {
    const table: array<Entry<V>>

    ghost predicate Valid() {
      table.Length > 0
    }

    constructor (n: nat, initialKey: nat, zero: V)
      requires n > 0
      ensures Valid() && fresh(table) && table[..] == seq(n, _ => Entry(initialKey, zero))
    {
      table := new Entry<V>[n](_ => Entry(initialKey, zero));
    }

    method InsertKey(key: nat, value: V)
      requires Valid()
      modifies table
      ensures table[..] == Insert(old(table[..]), key, value)
    {
      table[Index(table.Length, key)] := Entry(key, value);
    }

    method Lookup(key: nat) returns (r: Option<V>)
      requires Valid()
      ensures r == Get(table[..], key)
    {
      var e := table[Index(table.Length, key)];
      r := if e.key == key then Some(e.value) else None;
    }

    method Fill(key: nat)
      modifies table
      ensures table[..] == FillKeys(old(table[..]), key)
    {
      for i := 0 to table.Length
        invariant forall j :: 0 <= j < i ==> table[j] == Entry(key, old(table[j].value))
        invariant forall j :: i <= j < table.Length ==> table[j] == old(table[j])
      {
        table[i] := Entry(key, table[i].value);
      }
    }
  }
}
