/** The record models of mi/records.py. A Python dictionary keeps its insertion order, so a
    dictionary is a sequence of entries with distinct keys. */
module MIRecords {
  import opened Basics

  datatype MIValue =
    | MIString(text: string)
    | MIList(items: seq<MIValue>)
    | MIDict(entries: seq<Entry>)

  datatype Entry = Entry(key: string, value: MIValue)

  type Dict = seq<Entry>

  datatype RecordKind =
    | ResultKind | ExecAsync | StatusAsync | NotifyAsync
    | ConsoleStream | TargetStream | LogStream | PromptKind

  datatype Record =
    | MIRecord(kind: RecordKind, recordClass: string, results: Dict, raw: string, token: Option<nat>)
    | MIStreamRecord(kind: RecordKind, text: string, raw: string, token: Option<nat>)

  /** `d[key] = value`: an existing key keeps its place and takes the new value. */
  function Put(d: Dict, key: string, value: MIValue): Dict {
    if d == [] then [Entry(key, value)]
    else if d[0].key == key then [Entry(key, value)] + d[1..]
    else [d[0]] + Put(d[1..], key, value)
  }

  /** `d.get(key)`. */
  function Lookup(d: Dict, key: string): Option<MIValue> {
    if d == [] then None
    else if d[0].key == key then Some(d[0].value)
    else Lookup(d[1..], key)
  }

  predicate HasKey(d: Dict, key: string) {
    exists i :: 0 <= i < |d| && d[i].key == key
  }

  predicate DistinctKeys(d: Dict) {
    forall i, j :: 0 <= i < j < |d| ==> d[i].key != d[j].key
  }

  /** The last assignment to a key is the one a reader sees, and other keys are untouched. */
  lemma {:induction false} PutThenLookup(d: Dict, key: string, value: MIValue, other: string)
    ensures Lookup(Put(d, key, value), other) == if other == key then Some(value) else Lookup(d, other)
  {
    if d != [] && d[0].key != key {
      PutThenLookup(d[1..], key, value, other);
      assert Put(d, key, value)[1..] == Put(d[1..], key, value);
    }
  }

  lemma {:induction false} PutKeepsKeys(d: Dict, key: string, value: MIValue)
    ensures forall k :: HasKey(Put(d, key, value), k) <==> k == key || HasKey(d, k)
  {
    var p := Put(d, key, value);
    if d == [] {
      assert p[0].key == key;
    } else if d[0].key == key {
      assert p[0].key == key;
      forall k ensures HasKey(p, k) <==> k == key || HasKey(d, k) {
        if HasKey(d, k) {
          var i :| 0 <= i < |d| && d[i].key == k;
          assert p[i].key == k;
        }
      }
    } else {
      PutKeepsKeys(d[1..], key, value);
      var q := Put(d[1..], key, value);
      forall k ensures HasKey(p, k) <==> k == key || HasKey(d, k) {
        HasKeyTail(p, k);
        HasKeyTail(d, k);
        assert p[1..] == q;
      }
    }
  }

  lemma HasKeyTail(d: Dict, key: string)
    requires d != []
    ensures HasKey(d, key) <==> d[0].key == key || HasKey(d[1..], key)
  {
    if HasKey(d, key) && d[0].key != key {
      var i :| 0 <= i < |d| && d[i].key == key;
      assert d[1..][i - 1].key == key;
    }
    if HasKey(d[1..], key) {
      var i :| 0 <= i < |d[1..]| && d[1..][i].key == key;
      assert d[i + 1].key == key;
    }
  }

  lemma {:induction false} PutKeepsDistinct(d: Dict, key: string, value: MIValue)
    requires DistinctKeys(d)
    ensures DistinctKeys(Put(d, key, value))
  {
    if d != [] && d[0].key != key {
      PutKeepsDistinct(d[1..], key, value);
      PutKeepsKeys(d[1..], key, value);
      var q := Put(d[1..], key, value);
      assert !HasKey(d[1..], d[0].key);
      assert !HasKey(q, d[0].key);
      var p := Put(d, key, value);
      assert p == [d[0]] + q;
      forall i, j | 0 <= i < j < |p| ensures p[i].key != p[j].key {
        assert p[j] == q[j - 1];
        if i > 0 { assert p[i] == q[i - 1]; }
      }
    } else if d != [] {
      var p := Put(d, key, value);
      forall i, j | 0 <= i < j < |p| ensures p[i].key != p[j].key {
        assert p[j] == d[j];
        if i > 0 { assert p[i] == d[i]; }
      }
    }
  }

  /** The keys and their order: an assigned key stays in its place, a new one comes last. */
  lemma {:induction false} PutKeys(d: Dict, key: string, value: MIValue, i: nat)
    requires i < |d|
    ensures |Put(d, key, value)| == if HasKey(d, key) then |d| else |d| + 1
    ensures Put(d, key, value)[i].key == d[i].key
    ensures !HasKey(d, key) ==> Put(d, key, value)[|d|] == Entry(key, value)
  {
    HasKeyTail(d, key);
    if d[0].key != key && |d| > 1 {
      PutKeys(d[1..], key, value, if i > 0 then i - 1 else 0);
    } else if d[0].key != key {
      assert d[1..] == [];
    }
  }

  /** A new key goes to the end of the dictionary. */
  lemma {:induction false} PutNew(d: Dict, key: string, value: MIValue)
    requires !HasKey(d, key)
    ensures Put(d, key, value) == d + [Entry(key, value)]
  {
    if d != [] {
      HasKeyTail(d, key);
      PutNew(d[1..], key, value);
      assert d == [d[0]] + d[1..];
    }
  }
}
