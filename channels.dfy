/** The channel record: its topic (three attributes written together), its type
    letter, and the NAMES-style rendering of its members. */
module Channels {
  import opened Wrappers
  import opened Strings
  import opened Users

  /** `user in some_list`: records compare by their key, so membership is
      having a record with the same id in the list. */
  predicate InList(u: User, list: seq<User>) {
    exists v :: v in list && v.id == u.id
  }

  /** `"{0}".format(nick)`: an absent nick formats as the word None. */
  function NickText(nick: Option<string>): string {
    match nick
    case Some(n) => n
    case None => "None"
  }

  /** The inner `prefix(user)` of `userprefixes`: `@nick` for an operator, else
      `+nick` for a voiced user, else the bare nick (None when it is unset). */
  function Render(u: User, operators: seq<User>, voiced: seq<User>): Option<string> {
    if InList(u, operators) then Some("@" + NickText(u.nick))
    else if InList(u, voiced) then Some("+" + NickText(u.nick))
    else u.nick
  }

  /** For a nick that does not itself start with `@` or `+`, the first
      character of the rendering tells the member's status, operator winning
      over voiced, and the rest is the nick. */
  lemma RenderedStatus(u: User, operators: seq<User>, voiced: seq<User>)
    requires u.nick.Some? && (|u.nick.value| == 0 || u.nick.value[0] !in "@+")
    ensures Render(u, operators, voiced).Some?
    ensures var r := Render(u, operators, voiced).value;
            && (|r| > 0 && r[0] == '@' <==> InList(u, operators))
            && (|r| > 0 && r[0] == '+' <==> !InList(u, operators) && InList(u, voiced))
            && |r| == |u.nick.value| + (if InList(u, operators) || InList(u, voiced) then 1 else 0)
            && r[|r| - |u.nick.value|..] == u.nick.value
  {
  }

  /** An unset nick formats as the word None after `@` or `+`, and a plain
      member without a nick renders as None itself. */
  lemma RenderedUnsetNick(u: User, operators: seq<User>, voiced: seq<User>)
    requires u.nick.None?
    ensures Render(u, operators, voiced) ==
              if InList(u, operators) then Some("@None")
              else if InList(u, voiced) then Some("+None")
              else None
  {
    assert "@" + "None" == "@None" && "+" + "None" == "+None";
  }

  /** Python 2 ordering of the rendered values: None before every string,
      strings lexicographically. */
  predicate KeyLeq(a: Option<string>, b: Option<string>) {
    a.None? || (b.Some? && LexLeq(a.value, b.value))
  }

  lemma KeyLeqReflexive(a: Option<string>)
    ensures KeyLeq(a, a)
  {
    if a.Some? { LexLeqReflexive(a.value); }
  }

  lemma KeyLeqTotal(a: Option<string>, b: Option<string>)
    ensures KeyLeq(a, b) || KeyLeq(b, a)
  {
    if a.Some? && b.Some? { LexLeqTotal(a.value, b.value); }
  }

  lemma KeyLeqTransitive(a: Option<string>, b: Option<string>, c: Option<string>)
    requires KeyLeq(a, b) && KeyLeq(b, c)
    ensures KeyLeq(a, c)
  {
    if a.Some? { LexLeqTransitive(a.value, b.value, c.value); }
  }

  lemma KeyLeqAntisymmetric(a: Option<string>, b: Option<string>)
    requires KeyLeq(a, b) && KeyLeq(b, a)
    ensures a == b
  {
    if a.Some? { LexLeqAntisymmetric(a.value, b.value); }
  }

  /** `map(prefix, users)`. */
  function RenderAll(users: seq<User>, operators: seq<User>, voiced: seq<User>): (r: seq<Option<string>>)
    ensures |r| == |users|
    ensures forall i :: 0 <= i < |users| ==> r[i] == Render(users[i], operators, voiced)
    decreases |users|
  {
    if |users| == 0 then [] else [Render(users[0], operators, voiced)] + RenderAll(users[1..], operators, voiced)
  }

  predicate Sorted(keys: seq<Option<string>>) {
    forall i, j :: 0 <= i < j < |keys| ==> KeyLeq(keys[i], keys[j])
  }

  /** Users in non-decreasing order of their renderings. */
  predicate SortedByRender(users: seq<User>, operators: seq<User>, voiced: seq<User>) {
    forall i, j :: 0 <= i < j < |users| ==>
      KeyLeq(Render(users[i], operators, voiced), Render(users[j], operators, voiced))
  }

  /** Insert `u` into `sorted` before the first member whose rendering is not
      smaller than its own; as `u` precedes the others in the input, equal
      renderings keep their input order (`sorted` is stable). */
  function Insert(u: User, sorted: seq<User>, operators: seq<User>, voiced: seq<User>): seq<User>
    decreases |sorted|
  {
    if |sorted| == 0 then [u]
    else if KeyLeq(Render(u, operators, voiced), Render(sorted[0], operators, voiced)) then [u] + sorted
    else [sorted[0]] + Insert(u, sorted[1..], operators, voiced)
  }

  /** `sorted(users, key=prefix)`. */
  function SortByPrefix(users: seq<User>, operators: seq<User>, voiced: seq<User>): seq<User>
    decreases |users|
  {
    if |users| == 0 then []
    else Insert(users[0], SortByPrefix(users[1..], operators, voiced), operators, voiced)
  }

  lemma {:induction false} InsertPermutes(u: User, sorted: seq<User>, operators: seq<User>, voiced: seq<User>)
    ensures multiset(Insert(u, sorted, operators, voiced)) == multiset(sorted) + multiset{u}
    decreases |sorted|
  {
    if |sorted| > 0 && !KeyLeq(Render(u, operators, voiced), Render(sorted[0], operators, voiced)) {
      InsertPermutes(u, sorted[1..], operators, voiced);
      assert sorted == [sorted[0]] + sorted[1..];
    }
  }

  lemma {:induction false} InsertSorted(u: User, sorted: seq<User>, operators: seq<User>, voiced: seq<User>)
    requires SortedByRender(sorted, operators, voiced)
    ensures SortedByRender(Insert(u, sorted, operators, voiced), operators, voiced)
    decreases |sorted|
  {
    if |sorted| == 0 {
      return;
    }
    var ins := Insert(u, sorted, operators, voiced);
    var key := Render(u, operators, voiced);
    var head := Render(sorted[0], operators, voiced);
    if KeyLeq(key, head) {
      forall j | 1 < j < |ins|
        ensures KeyLeq(key, Render(ins[j], operators, voiced))
      {
        KeyLeqTransitive(key, head, Render(ins[j], operators, voiced));
      }
    } else {
      var rest := sorted[1..];
      InsertSorted(u, rest, operators, voiced);
      InsertPermutes(u, rest, operators, voiced);
      var tail := Insert(u, rest, operators, voiced);
      KeyLeqTotal(key, head);
      forall j | 0 <= j < |tail|
        ensures KeyLeq(head, Render(tail[j], operators, voiced))
      {
        var v := tail[j];
        assert v in multiset(tail);
        if v != u {
          assert v in multiset(rest);
          var k :| 0 <= k < |rest| && rest[k] == v;
          assert sorted[k + 1] == v;
        }
      }
    }
  }

  /** `sorted(users, key=prefix)` is in non-decreasing order of the rendering
      and holds each user exactly as often as the input does. */
  lemma {:induction false} SortByPrefixFacts(users: seq<User>, operators: seq<User>, voiced: seq<User>)
    ensures SortedByRender(SortByPrefix(users, operators, voiced), operators, voiced)
    ensures multiset(SortByPrefix(users, operators, voiced)) == multiset(users)
    decreases |users|
  {
    if |users| > 0 {
      var rest := SortByPrefix(users[1..], operators, voiced);
      SortByPrefixFacts(users[1..], operators, voiced);
      InsertSorted(users[0], rest, operators, voiced);
      InsertPermutes(users[0], rest, operators, voiced);
      assert users == [users[0]] + users[1..];
    }
  }

  lemma {:induction false} InsertRenders(u: User, sorted: seq<User>, operators: seq<User>, voiced: seq<User>)
    ensures multiset(RenderAll(Insert(u, sorted, operators, voiced), operators, voiced)) ==
            multiset(RenderAll(sorted, operators, voiced)) + multiset{Render(u, operators, voiced)}
    decreases |sorted|
  {
    if |sorted| > 0 && !KeyLeq(Render(u, operators, voiced), Render(sorted[0], operators, voiced)) {
      InsertRenders(u, sorted[1..], operators, voiced);
      assert RenderAll(sorted, operators, voiced) ==
             [Render(sorted[0], operators, voiced)] + RenderAll(sorted[1..], operators, voiced);
    }
  }

  /** Sorting neither adds nor drops a rendering. */
  lemma {:induction false} SortByPrefixRenders(users: seq<User>, operators: seq<User>, voiced: seq<User>)
    ensures multiset(RenderAll(SortByPrefix(users, operators, voiced), operators, voiced)) ==
            multiset(RenderAll(users, operators, voiced))
    decreases |users|
  {
    if |users| > 0 {
      SortByPrefixRenders(users[1..], operators, voiced);
      InsertRenders(users[0], SortByPrefix(users[1..], operators, voiced), operators, voiced);
      assert RenderAll(users, operators, voiced) ==
             [Render(users[0], operators, voiced)] + RenderAll(users[1..], operators, voiced);
    }
  }

  lemma SortedTail(a: seq<Option<string>>)
    requires Sorted(a) && |a| > 0
    ensures Sorted(a[1..])
  {
    forall i, j | 0 <= i < j < |a| - 1 ensures KeyLeq(a[1..][i], a[1..][j]) {
      assert a[1..][i] == a[i + 1] && a[1..][j] == a[j + 1];
    }
  }

  lemma SortedHeadIsLeast(a: seq<Option<string>>, v: Option<string>)
    requires Sorted(a) && v in multiset(a)
    ensures KeyLeq(a[0], v)
  {
    var m :| 0 <= m < |a| && a[m] == v;
    if m == 0 { KeyLeqReflexive(v); }
  }

  /** Removing equal heads from sequences with the same elements leaves
      tails with the same elements. */
  lemma SameTails(a: seq<Option<string>>, b: seq<Option<string>>)
    requires |a| > 0 && |b| > 0 && a[0] == b[0] && multiset(a) == multiset(b)
    ensures multiset(a[1..]) == multiset(b[1..])
  {
    var x := a[0];
    assert a == [x] + a[1..] && b == [x] + b[1..];
    forall v ensures multiset(a[1..])[v] == multiset(b[1..])[v] {
      assert multiset(a)[v] == multiset{x}[v] + multiset(a[1..])[v];
      assert multiset(b)[v] == multiset{x}[v] + multiset(b[1..])[v];
    }
  }

  /** Two sorted sequences with the same elements are equal: the rendered list
      does not depend on how `sorted` breaks ties. */
  lemma {:induction false} SortedPermutationUnique(a: seq<Option<string>>, b: seq<Option<string>>)
    requires Sorted(a) && Sorted(b) && multiset(a) == multiset(b)
    ensures a == b
    decreases |a|
  {
    assert |a| == |multiset(a)| == |multiset(b)| == |b|;
    if |a| > 0 {
      var x, y := a[0], b[0];
      assert x in multiset(b) && y in multiset(a) by {
        assert x in a && y in b;
      }
      SortedHeadIsLeast(a, y);
      SortedHeadIsLeast(b, x);
      KeyLeqAntisymmetric(x, y);
      SameTails(a, b);
      SortedTail(a);
      SortedTail(b);
      SortedPermutationUnique(a[1..], b[1..]);
      assert a == [x] + a[1..] && b == [x] + b[1..];
    }
  }

  /** The renderings of users sorted by rendering are sorted. */
  lemma RenderAllSorted(users: seq<User>, operators: seq<User>, voiced: seq<User>)
    requires SortedByRender(users, operators, voiced)
    ensures Sorted(RenderAll(users, operators, voiced))
  {
    var keys := RenderAll(users, operators, voiced);
    forall i, j | 0 <= i < j < |keys| ensures KeyLeq(keys[i], keys[j]) {
      assert keys[i] == Render(users[i], operators, voiced);
      assert keys[j] == Render(users[j], operators, voiced);
    }
  }

  lemma RenderSortedFacts(users: seq<User>, operators: seq<User>, voiced: seq<User>)
    ensures var r := RenderAll(SortByPrefix(users, operators, voiced), operators, voiced);
            |r| == |users| && Sorted(r) && multiset(r) == multiset(RenderAll(users, operators, voiced))
  {
    var ordered := SortByPrefix(users, operators, voiced);
    SortByPrefixFacts(users, operators, voiced);
    RenderAllSorted(ordered, operators, voiced);
    SortByPrefixRenders(users, operators, voiced);
    var r := RenderAll(ordered, operators, voiced);
    assert |r| == |multiset(r)| == |multiset(RenderAll(users, operators, voiced))| == |users|;
  }

  /** The rendered list is the only sorted arrangement of the members'
      renderings: any sorted sequence holding the same renderings equals it. */
  lemma RenderSortedDetermined(users: seq<User>, operators: seq<User>, voiced: seq<User>, r: seq<Option<string>>)
    requires Sorted(r) && multiset(r) == multiset(RenderAll(users, operators, voiced))
    ensures r == RenderAll(SortByPrefix(users, operators, voiced), operators, voiced)
  {
    RenderSortedFacts(users, operators, voiced);
    SortedPermutationUnique(r, RenderAll(SortByPrefix(users, operators, voiced), operators, voiced));
  }

  lemma ExampleRenders(bob: User, alice: User, carol: User)
    requires bob.id != alice.id && bob.id != carol.id && alice.id != carol.id
    requires bob.nick == Some("bob") && alice.nick == Some("alice") && carol.nick == Some("carol")
    ensures RenderAll([bob, alice, carol], [bob], [carol]) == [Some("@bob"), Some("alice"), Some("+carol")]
  {
    var ops, voiced := [bob], [carol];
    assert forall v :: v in ops ==> v == bob;
    assert forall v :: v in voiced ==> v == carol;
    assert InList(bob, ops) by { assert bob in ops; }
    assert InList(carol, voiced) by { assert carol in voiced; }
    assert "@" + "bob" == "@bob" && "+" + "carol" == "+carol";
  }

  /** The expected listing is sorted and holds the three renderings. */
  lemma ExampleOrder()
    ensures Sorted([Some("+carol"), Some("@bob"), Some("alice")])
    ensures multiset([Some("+carol"), Some("@bob"), Some("alice")]) ==
            multiset([Some("@bob"), Some("alice"), Some("+carol")])
  {
    assert LexLeq("+carol", "@bob") && LexLeq("@bob", "alice") && LexLeq("+carol", "alice");
  }

  /** Members bob (operator), alice and carol (voiced) render as
      `+carol`, `@bob`, `alice`, in that order. */
  lemma NamesExample(bob: User, alice: User, carol: User)
    requires bob.id != alice.id && bob.id != carol.id && alice.id != carol.id
    requires bob.nick == Some("bob") && alice.nick == Some("alice") && carol.nick == Some("carol")
    ensures RenderAll(SortByPrefix([bob, alice, carol], [bob], [carol]), [bob], [carol]) ==
            [Some("+carol"), Some("@bob"), Some("alice")]
  {
    var expected := [Some("+carol"), Some("@bob"), Some("alice")];
    ExampleRenders(bob, alice, carol);
    ExampleOrder();
    RenderSortedDetermined([bob, alice, carol], [bob], [carol], expected);
  }

  /** `int(x)` on a float: truncation toward zero. */
  function TruncateToInt(x: real): (r: int)
    ensures 0.0 <= x ==> r as real <= x < r as real + 1.0
    ensures x < 0.0 ==> r as real - 1.0 < x <= r as real
  {
    if 0.0 <= x then x.Floor else -((-x).Floor)
  }

  /** A channel record. The topic is kept as three attributes. */
  class Channel {
    var name: string
    var users: seq<User>
    var modes: string
    var operators: seq<User>
    var voiced: seq<User>
    var topicText: Option<string>
    var topicSetter: Option<string>
    var topicTimestamp: Option<int>

    /** A new channel: no members, no modes, no topic. */
    constructor (name: string)
      ensures this.name == name && users == [] && modes == "" && operators == [] && voiced == []
      ensures Topic() == (None, None, None)
    {
      this.name := name;
      users, modes, operators, voiced := [], "", [], [];
      topicText, topicSetter, topicTimestamp := None, None, None;
    }

    /** The `topic` getter: text, setter and timestamp. */
    function Topic(): (Option<string>, Option<string>, Option<int>)
      reads this
    {
      (topicText, topicSetter, topicTimestamp)
    }

    /** The `topic` setter, given the clock reading `now` in seconds: all three
        attributes come from this one call, and nothing else in the record
        changes. Persisting the record is not modelled. */
    method SetTopic(topic: Option<string>, setter: Option<string>, now: real)
      modifies this`topicText, this`topicSetter, this`topicTimestamp
      ensures Topic() == (topic, setter, Some(TruncateToInt(now)))
    {
      topicText := topic;
      topicSetter := setter;
      topicTimestamp := Some(TruncateToInt(now));
    }

    /** `type`: the first character of the name (None where indexing an empty
        name would raise). */
    function Type(): (r: Option<char>)
      reads this
      ensures r.None? <==> name == ""
      ensures r.Some? ==> name == [r.value] + name[1..]
    {
      if |name| == 0 then None else Some(name[0])
    }

    /** `userprefixes`: one rendering per member, in non-decreasing order, and
        as a multiset exactly the renderings of the members. */
    function UserPrefixes(): (r: seq<Option<string>>)
      reads this
      ensures |r| == |users|
      ensures Sorted(r)
      ensures multiset(r) == multiset(RenderAll(users, operators, voiced))
    {
      RenderSortedFacts(users, operators, voiced);
      RenderAll(SortByPrefix(users, operators, voiced), operators, voiced)
    }
  }

  /** Two topic assignments in a row: the getter shows the second one whole. */
  method SetTopicTwice(ch: Channel, t1: Option<string>, s1: Option<string>, now1: real,
                       t2: Option<string>, s2: Option<string>, now2: real)
    modifies ch
    ensures ch.Topic() == (t2, s2, Some(TruncateToInt(now2)))
    ensures ch.name == old(ch.name) && ch.users == old(ch.users)
  {
    ch.SetTopic(t1, s1, now1);
    ch.SetTopic(t2, s2, now2);
  }
}
