/** `CharacterService`: the characters imported so far, kept in a map from name to booth record.
    A JavaScript `Map` enumerates its keys in insertion order, and overwriting a key keeps its
    place; the store therefore keeps, beside the map, the sequence of its keys in that order. */
module CharacterRegistry {
  import opened Wrappers
  import opened JsValues
  import opened Cards

  /** A booth record whose `name` is a string, as the type CharacterBoothModel declares. */
  predicate HasStringName(c: Booth) {
    c.name.Some? && c.name.value.JString?
  }

  function NameOf(c: Booth): string
    requires HasStringName(c)
  {
    c.name.value.s
  }

  predicate Distinct(keys: seq<string>) {
    forall i, j :: 0 <= i < j < |keys| ==> keys[i] != keys[j]
  }

  /** `keys` lists the keys of `m`, each once. */
  ghost predicate Lists(keys: seq<string>, m: map<string, Booth>) {
    Distinct(keys) && forall k :: k in keys <==> k in m
  }

  /** The key order after `set(k, …)`: a new key goes last, a present key keeps its place. */
  function Inserted(keys: seq<string>, k: string): (r: seq<string>)
    ensures forall x :: x in r <==> x in keys || x == k
    ensures k in keys ==> r == keys
    ensures k !in keys ==> r == keys + [k]
  {
    if k in keys then keys else keys + [k]
  }

  /** The key order after `delete(k)`: k is dropped, the others keep their order. */
  function Erased(keys: seq<string>, k: string): (r: seq<string>)
    ensures forall x :: x in r <==> x in keys && x != k
    ensures |r| <= |keys|
  {
    if keys == [] then []
    else if keys[0] == k then Erased(keys[1..], k)
    else [keys[0]] + Erased(keys[1..], k)
  }

  /** The values of `m` enumerated in the order of `keys`. */
  function Snapshot(keys: seq<string>, m: map<string, Booth>): (r: seq<Booth>)
    requires forall k :: k in keys ==> k in m
    ensures |r| == |keys| && forall i :: 0 <= i < |keys| ==> r[i] == m[keys[i]]
  {
    if keys == [] then [] else [m[keys[0]]] + Snapshot(keys[1..], m)
  }

  // ---- the key order is kept ----

  lemma {:induction false} ErasedKeepsDistinct(keys: seq<string>, k: string)
    requires Distinct(keys)
    ensures Distinct(Erased(keys, k))
  {
    if keys != [] {
      ErasedKeepsDistinct(keys[1..], k);
      if keys[0] != k {
        var rest := Erased(keys[1..], k);
        assert keys[0] !in rest by {
          assert keys[0] !in keys[1..];
        }
        assert Erased(keys, k) == [keys[0]] + rest;
      }
    }
  }

  /** Erasing a key that is not there changes nothing. */
  lemma {:induction false} ErasedAbsent(keys: seq<string>, k: string)
    requires k !in keys
    ensures Erased(keys, k) == keys
  {
    if keys != [] {
      ErasedAbsent(keys[1..], k);
      assert [keys[0]] + keys[1..] == keys;
    }
  }

  /** Deleting a listed key closes the gap: the keys before it and after it keep their order. */
  lemma {:induction false} ErasedKeepsOrder(keys: seq<string>, k: string, i: nat)
    requires Distinct(keys) && i < |keys| && keys[i] == k
    ensures Erased(keys, k) == keys[..i] + keys[i + 1..]
    decreases i
  {
    if i == 0 {
      assert k !in keys[1..];
      ErasedAbsent(keys[1..], k);
    } else {
      assert keys[0] != k;
      ErasedKeepsOrder(keys[1..], k, i - 1);
      assert keys[..i] == [keys[0]] + keys[1..][..i - 1];
      assert keys[i + 1..] == keys[1..][i..];
    }
  }

  /** Storing under a key keeps the key order a listing of the map. */
  lemma InsertedLists(keys: seq<string>, m: map<string, Booth>, k: string, v: Booth)
    requires Lists(keys, m)
    ensures Lists(Inserted(keys, k), m[k := v])
  {
    if k !in keys {
      var r := keys + [k];
      forall i, j | 0 <= i < j < |r|
        ensures r[i] != r[j]
      {
        if j == |keys| {
          assert r[i] in keys;
        }
      }
    }
  }

  /** Deleting a key keeps the key order a listing of the map. */
  lemma ErasedLists(keys: seq<string>, m: map<string, Booth>, k: string)
    requires Lists(keys, m)
    ensures Lists(Erased(keys, k), m - {k})
  {
    ErasedKeepsDistinct(keys, k);
  }

  /** A listing has exactly one entry per key of the map. */
  lemma {:induction false} ListingSize(keys: seq<string>, m: map<string, Booth>)
    requires Lists(keys, m)
    ensures |keys| == |m|
    decreases |keys|
  {
    if keys == [] {
      assert m.Keys == {};
    } else {
      var k := keys[0];
      var rest := keys[1..];
      assert k !in rest;
      assert Lists(rest, m - {k}) by {
        forall x
          ensures x in rest <==> x in m - {k}
        {
          assert x in keys <==> x == k || x in rest;
        }
      }
      ListingSize(rest, m - {k});
      assert (m - {k}).Keys == m.Keys - {k};
    }
  }

  // ---- what the operations promise ----

  /** Overwriting a present key keeps the count and the key order. */
  lemma OverwriteKeepsCount(keys: seq<string>, m: map<string, Booth>, k: string, v: Booth)
    requires Lists(keys, m) && k in m
    ensures |m[k := v]| == |m|
    ensures Inserted(keys, k) == keys
  {
    assert m[k := v].Keys == m.Keys;
  }

  /** Overwriting a present key replaces that one value in place in the snapshot: every other
      entry is untouched. */
  lemma OverwriteReplacesInPlace(keys: seq<string>, m: map<string, Booth>, k: string, v: Booth, i: nat)
    requires Distinct(keys) && (forall x :: x in keys ==> x in m) && i < |keys| && keys[i] == k
    ensures Snapshot(keys, m[k := v]) == Snapshot(keys, m)[i := v]
  {
    var m' := m[k := v];
    var before := Snapshot(keys, m);
    var after := Snapshot(keys, m');
    forall j | 0 <= j < |keys|
      ensures after[j] == before[i := v][j]
    {
      if j != i {
        assert keys[j] != k;
        assert m'[keys[j]] == m[keys[j]];
      }
    }
  }

  /** Adding a new key puts its value last in the snapshot and keeps the earlier values. */
  lemma AddAppendsToSnapshot(keys: seq<string>, m: map<string, Booth>, k: string, v: Booth)
    requires (forall x :: x in keys ==> x in m) && k !in m
    ensures |m[k := v]| == |m| + 1
    ensures Snapshot(Inserted(keys, k), m[k := v]) == Snapshot(keys, m) + [v]
  {
    var r := Snapshot(keys + [k], m[k := v]);
    forall j | 0 <= j < |keys|
      ensures r[j] == Snapshot(keys, m)[j]
    {
      assert keys[j] != k;
    }
  }

  /** Removing an absent key changes neither the map nor the key order. */
  lemma RemoveAbsentIsNoOp(keys: seq<string>, m: map<string, Booth>, k: string)
    requires Lists(keys, m) && k !in m
    ensures m - {k} == m
    ensures Erased(keys, k) == keys
  {
    ErasedAbsent(keys, k);
  }

  /** The snapshot holds one value per stored key, and the stored value of every key. */
  lemma SnapshotCoversStore(keys: seq<string>, m: map<string, Booth>)
    requires Lists(keys, m)
    ensures |Snapshot(keys, m)| == |m|
    ensures forall k :: k in m ==> exists i :: 0 <= i < |keys| && keys[i] == k && Snapshot(keys, m)[i] == m[k]
  {
    ListingSize(keys, m);
    forall k | k in m
      ensures exists i :: 0 <= i < |keys| && keys[i] == k && Snapshot(keys, m)[i] == m[k]
    {
      var i :| 0 <= i < |keys| && keys[i] == k;
    }
  }

  /** The `Map` store. `currentName` is the `_currentCharacter` signal; nothing assigns it.
      `cachedCurrent` is the memo of the `currentCharacter` computed signal: None until its
      first read. */
  class CharacterService {
    var characters: map<string, Booth>
    var order: seq<string>
    var currentName: string
    var cachedCurrent: Option<Option<Booth>>

    ghost predicate Valid()
      reads this
    {
      Lists(order, characters)
    }

    constructor()
      ensures Valid()
      ensures characters == map[] && order == [] && currentName == "" && cachedCurrent == None
    {
      characters := map[];
      order := [];
      currentName := "";
      cachedCurrent := None;
    }

    /** What the `currentCharacter` computation looks up: the record stored under the current
        name, if any. */
    function CurrentCharacter(): (r: Option<Booth>)
      reads this
      ensures r.Some? <==> currentName in characters
      ensures r.Some? ==> r.value == characters[currentName]
    {
      GetCharacter(currentName)
    }

    /** Reading `currentCharacter()`. The computed signal recomputes only when a signal it read
        has changed; it reads `_currentCharacter`, which nothing sets, and the `Map`, whose
        mutations no signal tracks. So the first read computes and keeps the value, and every
        later read returns that value, whatever the store holds by then. */
    method ReadCurrentCharacter() returns (r: Option<Booth>)
      modifies this
      ensures old(cachedCurrent).None? ==> r == old(CurrentCharacter())
      ensures old(cachedCurrent).Some? ==> r == old(cachedCurrent).value
      ensures cachedCurrent == Some(r)
      ensures characters == old(characters) && order == old(order) && currentName == old(currentName)
    {
      if cachedCurrent.None? {
        cachedCurrent := Some(CurrentCharacter());
      }
      r := cachedCurrent.value;
    }

    /** `getCharacter(name)`: the stored record, or nothing (`undefined`) when name is absent. */
    function GetCharacter(name: string): (r: Option<Booth>)
      reads this
      ensures r.Some? <==> name in characters
      ensures r.Some? ==> r.value == characters[name]
    {
      if name in characters then Some(characters[name]) else None
    }

    /** `getCharacters()`: a new array holding the stored records in key order. */
    method GetCharacters() returns (a: array<Booth>)
      requires Valid()
      ensures fresh(a)
      ensures a[..] == Snapshot(order, characters)
      ensures a.Length == |characters|
    {
      ListingSize(order, characters);
      var values := Snapshot(order, characters);
      a := new Booth[|values|](i requires 0 <= i < |values| => values[i]);
    }

    /** `addCharacter(character)`: stores the record under its own name. */
    method AddCharacter(c: Booth)
      requires Valid() && HasStringName(c)
      modifies this
      ensures Valid()
      ensures characters == old(characters)[NameOf(c) := c]
      ensures order == Inserted(old(order), NameOf(c))
      ensures currentName == old(currentName) && cachedCurrent == old(cachedCurrent)
    {
      InsertedLists(order, characters, NameOf(c), c);
      characters := characters[NameOf(c) := c];
      order := Inserted(order, NameOf(c));
    }

    /** `addCharacter(name, character)`: stores the record under name, whatever its own name. */
    method AddCharacterNamed(name: string, c: Booth)
      requires Valid()
      modifies this
      ensures Valid()
      ensures characters == old(characters)[name := c]
      ensures order == Inserted(old(order), name)
      ensures currentName == old(currentName) && cachedCurrent == old(cachedCurrent)
    {
      InsertedLists(order, characters, name, c);
      characters := characters[name := c];
      order := Inserted(order, name);
    }

    /** `removeCharacter(name)`: deletes the entry under name, if there is one. */
    method RemoveCharacter(name: string)
      requires Valid()
      modifies this
      ensures Valid()
      ensures characters == old(characters) - {name}
      ensures order == Erased(old(order), name)
      ensures currentName == old(currentName) && cachedCurrent == old(cachedCurrent)
    {
      ErasedLists(order, characters, name);
      characters := characters - {name};
      order := Erased(order, name);
    }

    /** `removeCharacter(character)`: deletes the entry under the record's name. */
    method RemoveCharacterOf(c: Booth)
      requires Valid() && HasStringName(c)
      modifies this
      ensures Valid()
      ensures characters == old(characters) - {NameOf(c)}
      ensures order == Erased(old(order), NameOf(c))
      ensures currentName == old(currentName) && cachedCurrent == old(cachedCurrent)
    {
      RemoveCharacter(NameOf(c));
    }
  }

  /** Once `currentCharacter()` has been read, storing a record under the current name does not
      change what it returns. */
  method CurrentIsStale(s: CharacterService, c: Booth) returns (first: Option<Booth>, second: Option<Booth>)
    requires s.Valid()
    modifies s
    ensures second == first
    ensures s.GetCharacter(s.currentName) == Some(c)
  {
    first := s.ReadCurrentCharacter();
    s.AddCharacterNamed(s.currentName, c);
    second := s.ReadCurrentCharacter();
  }
}
