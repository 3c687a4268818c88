/** The tooltip aggregator shared by the box plot and the violin plot: hovering
    a shape adds its entry unless one with the same key is already shown, and
    leaving it removes the entry by key, or every entry for the key "all". */
module TooltipData {

  /** A shown value: a number (box plot, and the violin plot's maximum,
      median and minimum) or an interval (the violin plot's quartile and
      confidence intervals). */
  datatype Value = Number(n: real) | Interval(lo: real, hi: real)

  datatype Entry = Entry(key: string, value: Value)

  datatype Tooltip = Tooltip(x: real, y: real, name: string, data: seq<Entry>)

  /** The state before any hover. */
  function Empty(): Tooltip { Tooltip(0.0, 0.0, "", []) }

  predicate HasKey(data: seq<Entry>, key: string)
  {
    exists i :: 0 <= i < |data| && data[i].key == key
  }

  predicate UniqueKeys(data: seq<Entry>)
  {
    forall i, j :: 0 <= i < j < |data| ==> data[i].key != data[j].key
  }

  /** `Array.prototype.find` on the key, as a boolean. */
  function Find(data: seq<Entry>, key: string): (found: bool)
    ensures found <==> HasKey(data, key)
  {
    if |data| == 0 then false
    else if data[0].key == key then true
    else
      assert forall i :: 1 <= i < |data| ==> data[i] == data[1..][i - 1];
      Find(data[1..], key)
  }

  /** `addTooltipData`: the position and name always move to the hovered
      shape; the entry is appended only when its key is new. */
  function Add(t: Tooltip, x: real, y: real, name: string, d: Entry): (r: Tooltip)
    ensures r.x == x && r.y == y && r.name == name
    ensures HasKey(t.data, d.key) ==> r.data == t.data
    ensures !HasKey(t.data, d.key) ==> r.data == t.data + [d]
  {
    Tooltip(x, y, name, if Find(t.data, d.key) then t.data else t.data + [d])
  }

  /** `prev.data.filter(item => item.key !== key)`. */
  function Without(data: seq<Entry>, key: string): (r: seq<Entry>)
    ensures |r| <= |data|
  {
    if |data| == 0 then []
    else (if data[0].key == key then [] else [data[0]]) + Without(data[1..], key)
  }

  /** The kept entries are exactly those with another key. */
  lemma {:induction false} WithoutMembers(data: seq<Entry>, key: string)
    ensures forall e :: e in Without(data, key) <==> e in data && e.key != key
    decreases |data|
  {
    if |data| > 0 {
      WithoutMembers(data[1..], key);
      assert data == [data[0]] + data[1..];
    }
  }

  /** `removeTooltipData`: "all" clears the list, any other key drops that key's
      entries; the position and name stay. */
  function Remove(t: Tooltip, key: string): (r: Tooltip)
    ensures r.x == t.x && r.y == t.y && r.name == t.name
    ensures key == "all" ==> r.data == []
    ensures key != "all" ==> forall e :: e in r.data <==> e in t.data && e.key != key
  {
    WithoutMembers(t.data, key);
    t.(data := if key == "all" then [] else Without(t.data, key))
  }

  /** Adding never creates a second entry for a key. */
  lemma AddKeepsUnique(t: Tooltip, x: real, y: real, name: string, d: Entry)
    requires UniqueKeys(t.data)
    ensures UniqueKeys(Add(t, x, y, name, d).data)
  {
    var r := Add(t, x, y, name, d).data;
    if !HasKey(t.data, d.key) {
      forall i, j | 0 <= i < j < |r|
        ensures r[i].key != r[j].key
      {
        if j == |t.data| {
          assert r[i] == t.data[i];
        } else {
          assert r[i] == t.data[i] && r[j] == t.data[j];
        }
      }
    }
  }

  /** Filtering distributes over concatenation, so the kept entries stay in
      their order. */
  lemma {:induction false} WithoutConcat(a: seq<Entry>, b: seq<Entry>, key: string)
    ensures Without(a + b, key) == Without(a, key) + Without(b, key)
    decreases |a|
  {
    if |a| > 0 {
      var head := if a[0].key == key then [] else [a[0]];
      assert (a + b)[0] == a[0] && (a + b)[1..] == a[1..] + b;
      WithoutConcat(a[1..], b, key);
      assert head + (Without(a[1..], key) + Without(b, key)) == (head + Without(a[1..], key)) + Without(b, key);
    } else {
      assert a + b == b;
    }
  }

  /** Removing a key that is not shown changes nothing. */
  lemma {:induction false} WithoutAbsent(data: seq<Entry>, key: string)
    requires !HasKey(data, key)
    ensures Without(data, key) == data
    decreases |data|
  {
    if |data| > 0 {
      assert data[0].key != key;
      assert !HasKey(data[1..], key) by {
        forall i | 0 <= i < |data| - 1
          ensures data[1..][i].key != key
        {
          assert data[1..][i] == data[i + 1];
        }
      }
      WithoutAbsent(data[1..], key);
      assert data == [data[0]] + data[1..];
    }
  }

  /** Leaving a shape right after hovering it restores the list as it was. */
  lemma RemoveUndoesAdd(t: Tooltip, x: real, y: real, name: string, d: Entry)
    requires !HasKey(t.data, d.key) && d.key != "all"
    ensures Remove(Add(t, x, y, name, d), d.key).data == t.data
  {
    WithoutConcat(t.data, [d], d.key);
    WithoutAbsent(t.data, d.key);
    assert Without([d], d.key) == [] + Without([d][1..], d.key);
  }

  /** Removing keeps the keys unique. */
  lemma RemoveKeepsUnique(t: Tooltip, key: string)
    requires UniqueKeys(t.data)
    ensures UniqueKeys(Remove(t, key).data)
  {
    if key != "all" {
      WithoutUnique(t.data, key);
    }
  }

  lemma {:induction false} WithoutUnique(data: seq<Entry>, key: string)
    requires UniqueKeys(data)
    ensures UniqueKeys(Without(data, key))
    decreases |data|
  {
    if |data| > 0 {
      TailUnique(data);
      WithoutUnique(data[1..], key);
      if data[0].key != key {
        WithoutMembers(data[1..], key);
        ConsUnique(data[0], Without(data[1..], key), data[1..]);
      }
    }
  }

  lemma TailUnique(data: seq<Entry>)
    requires |data| > 0 && UniqueKeys(data)
    ensures UniqueKeys(data[1..]) && forall e :: e in data[1..] ==> e.key != data[0].key
  {
    forall i, j | 0 <= i < j < |data| - 1
      ensures data[1..][i].key != data[1..][j].key
    {
      assert data[1..][i] == data[i + 1] && data[1..][j] == data[j + 1];
    }
  }

  /** An entry whose key none of a unique list's entries has can go in front. */
  lemma ConsUnique(h: Entry, rest: seq<Entry>, pool: seq<Entry>)
    requires UniqueKeys(rest)
    requires forall e :: e in rest ==> e in pool
    requires forall e :: e in pool ==> e.key != h.key
    ensures UniqueKeys([h] + rest)
  {
    var r := [h] + rest;
    forall i, j | 0 <= i < j < |r|
      ensures r[i].key != r[j].key
    {
      assert r[j] == rest[j - 1] && rest[j - 1] in rest;
      if i > 0 {
        assert r[i] == rest[i - 1];
      }
    }
  }
}
