/** Reading a storage object's metadata: the character-key selection of
    `attempt_to_create_circuit_new` and the destination/weight map of `take_step`. */
module NodeMetadata {
  import opened Outcomes
  import opened PyText

  /** One metadata entry: a composite key such as "a_0.12_7.34" naming a destination. */
  datatype Entry = Entry(key: string, destination: Address)

  /** An object's metadata dictionary, as its entries in iteration order. */
  type Metadata = seq<Entry>

  /** The `key[:1] == character` filter. */
  predicate MatchesCharacter(key: string, character: string)
  {
    Head(key) == character
  }

  /** The list comprehension over `metadata.keys()` keeping the keys that start with `character`. */
  function CharacterKeys(md: Metadata, character: string): (keys: seq<string>)
    ensures forall k :: k in keys <==> exists e :: e in md && e.key == k && MatchesCharacter(k, character)
  {
    if |md| == 0 then []
    else
      var rest := CharacterKeys(md[1..], character);
      assert forall e :: e in md <==> e == md[0] || e in md[1..];
      if MatchesCharacter(md[0].key, character) then [md[0].key] + rest else rest
  }

  /** `sorted(keys, reverse=True)[0]`: the greatest key under Python's string order,
      or the index error an empty list raises. */
  method Greatest(keys: seq<string>) returns (r: Result<string>)
    ensures r.Err? <==> |keys| == 0
    ensures r.Err? ==> r.error == IndexError
    ensures r.Ok? ==> r.value in keys
    ensures r.Ok? ==> forall k :: k in keys ==> k == r.value || Below(k, r.value)
  {
    if |keys| == 0 {
      return Err(IndexError);
    }
    var best := keys[0];
    for i := 1 to |keys|
      invariant best in keys[..i]
      invariant forall j :: 0 <= j < i ==> keys[j] == best || Below(keys[j], best)
    {
      if Below(best, keys[i]) {
        forall j | 0 <= j < i && keys[j] != best
          ensures Below(keys[j], keys[i])
        {
          BelowTransitive(keys[j], best, keys[i]);
        }
        best := keys[i];
      } else if keys[i] != best {
        BelowTotal(keys[i], best);
      }
    }
    assert keys[..|keys|] == keys;
    return Ok(best);
  }

  /** `metadata[key]` for a key the dictionary holds. */
  function Lookup(md: Metadata, key: string): (e: Entry)
    requires exists e :: e in md && e.key == key
    ensures e in md && e.key == key
  {
    if md[0].key == key then md[0]
    else
      assert forall e :: e in md && e.key == key ==> e in md[1..];
      Lookup(md[1..], key)
  }

  /** Lines 86-91 of attempt_to_create_circuit_new: among the entries whose key starts
      with `character`, the one with the greatest key; an index error when none does. */
  method SelectCharacterEntry(md: Metadata, character: string) returns (r: Result<Entry>)
    ensures r.Err? <==> forall e :: e in md ==> !MatchesCharacter(e.key, character)
    ensures r.Err? ==> r.error == IndexError
    ensures r.Ok? ==> r.value in md && MatchesCharacter(r.value.key, character)
    ensures r.Ok? ==> forall e :: e in md && MatchesCharacter(e.key, character) ==>
                        e.key == r.value.key || Below(e.key, r.value.key)
  {
    var keys := CharacterKeys(md, character);
    var highest := Greatest(keys);
    if highest.Err? {
      return Err(highest.error);
    }
    r := Ok(Lookup(md, highest.value));
    assert r.value.key in keys;
  }

  /** `path.split('_')[1]`: the weight field of a composite key. */
  function WeightField(key: string): (r: Result<string>)
    ensures r.Ok? <==> '_' in key
    ensures r.Err? ==> r.error == IndexError
    ensures r.Ok? ==> var i := IndexOf(key, '_');
                      && '_' !in r.value
                      && r.value <= key[i + 1..]
                      && (|r.value| == |key| - i - 1 || key[i + 1 + |r.value|] == '_')
  {
    var fields := Split(key, '_');
    if |fields| > 1 then
      var i := IndexOf(key, '_');
      assert i == |fields[0]|;
      assert fields[1..] == Split(key[i + 1..], '_');
      Ok(fields[1])
    else Err(IndexError)
  }

  /** No later entry of `md` names the same destination as entry `i`. */
  predicate LastFor(md: Metadata, i: int)
    requires 0 <= i < |md|
  {
    forall j :: i < j < |md| ==> md[j].destination != md[i].destination
  }

  /** Line 38 of take_step: the comprehension mapping each entry's destination to the
      second `_`-field of its key, taken in dictionary order. The result is a map from every
      destination to a weight string, or the index error a key with no underscore raises. Which weight each destination gets is `DestinationsKeepLastWeight`. */
  function Destinations(md: Metadata): (r: Result<map<Address, string>>)
    ensures r.Err? <==> exists e :: e in md && '_' !in e.key
    ensures r.Err? ==> r.error == IndexError
    ensures r.Ok? ==> r.value.Keys == set e | e in md :: e.destination
    decreases |md|
  {
    if |md| == 0 then Ok(map[])
    else
      var init := md[..|md| - 1];
      var last := md[|md| - 1];
      assert forall e :: e in md <==> e in init || e == last;
      match Destinations(init)
      case Err(e) => Err(e)
      case Ok(m) =>
        match WeightField(last.key)
        case Err(e) => Err(e)
        case Ok(w) => Ok(m[last.destination := w])
  }

  /** When a destination is named by several keys, the comprehension keeps the weight
      field of the last of them. */
  lemma {:induction false} DestinationsKeepLastWeight(md: Metadata, i: int)
    requires 0 <= i < |md| && LastFor(md, i)
    requires Destinations(md).Ok?
    ensures WeightField(md[i].key).Ok?
    ensures Destinations(md).value[md[i].destination] == WeightField(md[i].key).value
    decreases |md|
  {
    assert md[i] in md;
    var init := md[..|md| - 1];
    if i < |md| - 1 {
      assert Destinations(init).Ok?;
      assert init[i] == md[i];
      DestinationsKeepLastWeight(init, i);
    }
  }
}
