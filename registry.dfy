/** The token registry of the command loop: a `vector<Token>` of (name, image) pairs,
    searched front to back by name. */
module Registry {
  import opened Wrappers
  import opened Images

  /** A named handle on an image; names of registered tokens start with `$`. */
  datatype Token = Token(name: string, image: Image)

  /** Some token of the list carries the name. */
  ghost predicate Named(tokens: seq<Token>, name: string)
  {
    exists k :: 0 <= k < |tokens| && tokens[k].name == name
  }

  /** `tokenExists`: the `find_if` over the names stops before the end. */
  function TokenExists(tokens: seq<Token>, name: string): (found: bool)
    ensures found <==> Named(tokens, name)
  {
    if tokens == [] then false
    else if tokens[0].name == name then true
    else
      var found := TokenExists(tokens[1..], name);
      assert found ==> Named(tokens, name) by {
        if found {
          var k :| 0 <= k < |tokens[1..]| && tokens[1..][k].name == name;
          assert tokens[k + 1].name == name;
        }
      }
      found
  }

  /** The position of the first token with the name, if there is one. */
  function FirstMatch(tokens: seq<Token>, name: string): (r: Option<nat>)
    ensures r.Some? <==> Named(tokens, name)
    ensures r.Some? ==> r.value < |tokens| && tokens[r.value].name == name
    ensures r.Some? ==> forall k :: 0 <= k < r.value ==> tokens[k].name != name
  {
    if tokens == [] then None
    else if tokens[0].name == name then Some(0)
    else
      match FirstMatch(tokens[1..], name)
      case None => None
      case Some(k) => Some(k + 1)
  }

  /** `deleteToken` on the list: the first token with the name is erased and the others
      keep their order; without such a token the list is unchanged. */
  function Erased(tokens: seq<Token>, name: string): (r: seq<Token>)
    ensures !Named(tokens, name) ==> r == tokens
    ensures Named(tokens, name) ==>
              var k := FirstMatch(tokens, name).value;
              |r| == |tokens| - 1 && multiset(r) + multiset{tokens[k]} == multiset(tokens)
  {
    match FirstMatch(tokens, name)
    case None => tokens
    case Some(k) =>
      assert tokens == tokens[..k] + [tokens[k]] + tokens[k + 1..];
      tokens[..k] + tokens[k + 1..]
  }

  /** No two tokens share a name. */
  ghost predicate UniqueNames(tokens: seq<Token>)
  {
    forall a, b :: 0 <= a < b < |tokens| ==> tokens[a].name != tokens[b].name
  }

  /** Erasing keeps every token without the name, in order around the gap, and drops
      exactly one token when the name is present. */
  lemma ErasedKeepsOthers(tokens: seq<Token>, name: string)
    requires UniqueNames(tokens)
    ensures forall t :: t in Erased(tokens, name) <==> t in tokens && t.name != name
    ensures |Erased(tokens, name)| == if Named(tokens, name) then |tokens| - 1 else |tokens|
  {
    match FirstMatch(tokens, name)
    case None =>
    case Some(k) =>
      var r := tokens[..k] + tokens[k + 1..];
      forall t | t in r
        ensures t in tokens && t.name != name
      {
        var m :| 0 <= m < |r| && r[m] == t;
        if m < k {
          assert r[m] == tokens[m] && tokens[m].name != name;
        } else {
          assert r[m] == tokens[m + 1] && tokens[m + 1].name != tokens[k].name;
        }
      }
      forall t | t in tokens && t.name != name
        ensures t in r
      {
        var m :| 0 <= m < |tokens| && tokens[m] == t;
        assert m != k;
        if m < k { assert r[m] == t; } else { assert r[m - 1] == t; }
      }
  }

  /** Erasing keeps names unique. */
  lemma ErasedKeepsUnique(tokens: seq<Token>, name: string)
    requires UniqueNames(tokens)
    ensures UniqueNames(Erased(tokens, name))
  {
    match FirstMatch(tokens, name)
    case None =>
    case Some(k) =>
      var r := tokens[..k] + tokens[k + 1..];
      forall a, b | 0 <= a < b < |r| ensures r[a].name != r[b].name {
        var a', b' := if a < k then a else a + 1, if b < k then b else b + 1;
        assert r[a] == tokens[a'] && r[b] == tokens[b'];
      }
  }

  /** With unique names, no token with the name survives erasing. */
  lemma ErasedRemovesName(tokens: seq<Token>, name: string)
    requires UniqueNames(tokens)
    ensures !Named(Erased(tokens, name), name)
  {
    var r := Erased(tokens, name);
    ErasedKeepsOthers(tokens, name);
    forall m | 0 <= m < |r| ensures r[m].name != name {
      assert r[m] in r;
    }
  }

  /** Outcome of the import command `i <file> as <name>`. */
  datatype ImportOutcome =
    | InvalidName   // the name does not start with `$`
    | NameTaken     // a token with the name is already registered
    | ReadFailed    // the file could not be read as an image
    | Imported      // the token was appended

  class TokenDatabase {
    var tokens: seq<Token>

    ghost predicate Valid()
      reads this
    {
      UniqueNames(tokens)
    }

    constructor ()
      ensures Valid() && tokens == []
    {
      tokens := [];
    }

    /** `findToken`: the first token with the name, scanning front to back. */
    method Find(name: string) returns (index: Option<nat>)
      ensures index == FirstMatch(tokens, name)
      ensures index.Some? == TokenExists(tokens, name)
    {
      var k := 0;
      while k < |tokens|
        invariant 0 <= k <= |tokens|
        invariant forall m :: 0 <= m < k ==> tokens[m].name != name
      {
        if tokens[k].name == name {
          FirstMatchAt(tokens, name, k);
          return Some(k);
        }
        k := k + 1;
      }
      return None;
    }

    /** `deleteToken`: erases the first token with the name; reports whether there was one. */
    method Delete(name: string) returns (deleted: bool)
      requires Valid()
      modifies this
      ensures Valid()
      ensures deleted == Named(old(tokens), name)
      ensures tokens == Erased(old(tokens), name)
      ensures !Named(tokens, name)
    {
      ErasedKeepsUnique(tokens, name);
      ErasedRemovesName(tokens, name);
      var index := Find(name);
      match index
      case None =>
        deleted := false;
      case Some(k) =>
        tokens := tokens[..k] + tokens[k + 1..];
        deleted := true;
    }

    /** The import command once the arguments are split: a name that does not start with
        `$` or that is taken is refused before the file is read; `loaded` is what reading
        the file produced. Only an absent name is appended, so names stay unique. */
    method Import(name: string, loaded: Option<Image>) returns (outcome: ImportOutcome)
      requires Valid() && name != []
      modifies this
      ensures Valid()
      ensures outcome == (if name[0] != '$' then InvalidName
                          else if Named(old(tokens), name) then NameTaken
                          else if loaded.None? then ReadFailed
                          else Imported)
      ensures tokens == if outcome == Imported then old(tokens) + [Token(name, loaded.value)] else old(tokens)
    {
      if name[0] != '$' {
        return InvalidName;
      }
      if TokenExists(tokens, name) {
        return NameTaken;
      }
      if loaded.None? {
        return ReadFailed;
      }
      tokens := tokens + [Token(name, loaded.value)];
      outcome := Imported;
    }
  }

  /** When no earlier token has the name and token `k` does, the first match is `k`. */
  lemma {:induction false} FirstMatchAt(tokens: seq<Token>, name: string, k: nat)
    requires k < |tokens| && tokens[k].name == name
    requires forall m :: 0 <= m < k ==> tokens[m].name != name
    ensures FirstMatch(tokens, name) == Some(k)
  {
    if k > 0 {
      FirstMatchAt(tokens[1..], name, k - 1);
    }
  }
}
