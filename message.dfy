/** A chat message as the client keeps it; two messages are the same message when their IDs agree. */
module Messages {

  /** The message's timestamp; it is only stored, never inspected. */
  datatype DateTime = DateTime(year: int, month: int, day: int, hour: int, minute: int, second: int, microsecond: int)

  /** `Message(ID, content, date)`: the constructor stores its three arguments as they are. */
  datatype Message = Message(id: int, content: string, date: DateTime)

  /** `__eq__`: equality by ID alone, so two messages are the same exactly when they differ at most in content and date. */
  predicate Same(a: Message, b: Message)
    ensures Same(a, b) <==> a.(content := b.content, date := b.date) == b
  {
    a.id == b.id
  }

  /** Message equality ignores content and date and tells apart messages with different IDs. */
  lemma SameIsIdentity(id: int, c1: string, c2: string, d1: DateTime, d2: DateTime, other: Message)
    ensures Same(Message(id, c1, d1), Message(id, c2, d2))
    ensures other.id != id ==> !Same(Message(id, c1, d1), other)
  {
  }

  /** `__eq__` is an equivalence relation. */
  lemma SameIsEquivalence(a: Message, b: Message, c: Message)
    ensures Same(a, a)
    ensures Same(a, b) ==> Same(b, a)
    ensures Same(a, b) && Same(b, c) ==> Same(a, c)
  {
  }

  /** `__str__` and `__repr__`: "Message: " followed by the content. */
  function Render(m: Message): (r: string)
    ensures |r| == 9 + |m.content|
    ensures r[..9] == "Message: " && r[9..] == m.content
  {
    "Message: " + m.content
  }

  /** Two messages render alike exactly when their contents agree. */
  lemma RenderDeterminesContent(a: Message, b: Message)
    ensures Render(a) == Render(b) <==> a.content == b.content
  {
    if Render(a) == Render(b) {
      assert a.content == Render(a)[9..];
    }
  }
}
