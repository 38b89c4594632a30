/** `get_character_object`: the registry from characters to the addresses of their
    character objects, filled in on first use. */
module CharacterRegistry {
  import opened Outcomes

  /** Python's truthiness of `registry.get(character)`: present and not the empty string. */
  predicate Registered(registry: map<string, Address>, character: string)
  {
    character in registry && registry[character] != ""
  }

  /** What a call produces: the URI returned, the registry afterwards, and whether
      create_character_object was called (it uploads a new object). */
  datatype Lookup = Lookup(uri: Address, registry: map<string, Address>, created: bool)

  /** get_character_object(connected_characters, character), where `create` stands for
      create_character_object. A registered URI is returned as it is; otherwise a new one
      is created and stored under the character, and no other entry changes. */
  function GetCharacterObject(registry: map<string, Address>, character: string, create: string -> Address): (r: Lookup)
    ensures r.created <==> !Registered(registry, character)
    ensures character in r.registry && r.registry[character] == r.uri
    ensures r.created ==> r.uri == create(character)
    ensures !r.created ==> r.registry == registry
    ensures r.registry.Keys == registry.Keys + {character}
    ensures forall k :: k in registry && k != character ==> r.registry[k] == registry[k]
  {
    var found := if character in registry then registry[character] else "";
    if found == "" then
      var uri := create(character);
      Lookup(uri, registry[character := uri], true)
    else
      Lookup(found, registry, false)
  }

  /** A second lookup of the same character returns the same URI from the updated
      registry without creating again, provided the created URI is not empty. */
  lemma GetCharacterObjectIdempotent(registry: map<string, Address>, character: string, create: string -> Address)
    requires create(character) != ""
    ensures var first := GetCharacterObject(registry, character, create);
            var second := GetCharacterObject(first.registry, character, create);
            && second.uri == first.uri
            && !second.created
            && second.registry == first.registry
  {
  }

  /** An empty created URI is not truthy, so for an unregistered character the next
      lookup creates again. */
  lemma EmptyCreatedUriIsCreatedAgain(registry: map<string, Address>, character: string, create: string -> Address)
    requires !Registered(registry, character) && create(character) == ""
    ensures GetCharacterObject(GetCharacterObject(registry, character, create).registry, character, create).created
  {
  }
}
