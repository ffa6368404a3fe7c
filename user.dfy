/** A chat peer; two users are the same user when their IDs agree. */
module Users {
  import opened Messages

  /** `User(ID, name, messages)`: the constructor stores its three arguments as they are. */
  datatype User = User(id: int, name: string, messages: seq<Message>)

  /** `__eq__`: equality by ID alone, so two users are the same exactly when they differ at most in name and messages. */
  predicate Same(a: User, b: User)
    ensures Same(a, b) <==> a.(name := b.name, messages := b.messages) == b
  {
    a.id == b.id
  }

  /** User equality ignores name and message list and tells apart users with different IDs. */
  lemma SameIsIdentity(id: int, n1: string, n2: string, m1: seq<Message>, m2: seq<Message>, other: User)
    ensures Same(User(id, n1, m1), User(id, n2, m2))
    ensures other.id != id ==> !Same(User(id, n1, m1), other)
  {
  }

  /** `__eq__` is an equivalence relation. */
  lemma SameIsEquivalence(a: User, b: User, c: User)
    ensures Same(a, a)
    ensures Same(a, b) ==> Same(b, a)
    ensures Same(a, b) && Same(b, c) ==> Same(a, c)
  {
  }

  /** `__str__` and `__repr__`: "User: " followed by the name. */
  function Render(u: User): (r: string)
    ensures |r| == 6 + |u.name|
    ensures r[..6] == "User: " && r[6..] == u.name
  {
    "User: " + u.name
  }

  /** Two users render alike exactly when their names agree. */
  lemma RenderDeterminesName(a: User, b: User)
    ensures Render(a) == Render(b) <==> a.name == b.name
  {
    if Render(a) == Render(b) {
      assert a.name == Render(a)[6..];
    }
  }
}
