// Model of the ChatGPT half of apps/server/src/lib/import-conversations.ts: the mapping of
// nodes with parent pointers is flattened by a depth-first walk with an explicit stack.
module ImportConversations {
  import opened Wrappers
  import opened Finite
  import opened ParentChains
  import opened Text

  // ---------------------------------------------------------------- the forest

  // Children of a key (or the roots, for None), in key order.
  function Children<K(==,!new)>(keys: seq<K>, parent: map<K, K>, p: Option<K>): (r: seq<K>)
    ensures forall k :: k in r <==> k in keys && Up(parent, k) == p
  {
    if keys == [] then [] else
      var rest := Children(keys[1..], parent, p);
      if Up(parent, keys[0]) == p then [keys[0]] + rest else rest
  }

  ghost predicate StandsBefore<K>(keys: seq<K>, a: K, b: K) {
    exists i, j :: 0 <= i < j < |keys| && keys[i] == a && keys[j] == b
  }

  ghost predicate InOrderOf<K>(keys: seq<K>, list: seq<K>) {
    forall a, b :: 0 <= a < b < |list| ==> StandsBefore(keys, list[a], list[b])
  }

  lemma InOrderOfMore<K>(keys: seq<K>, list: seq<K>)
    requires keys != [] && InOrderOf(keys[1..], list) && forall k :: k in list ==> k in keys[1..]
    ensures InOrderOf(keys, list) && InOrderOf(keys, [keys[0]] + list)
  {
    var longer := [keys[0]] + list;
    forall a, b | 0 <= a < b < |list| ensures StandsBefore(keys, list[a], list[b]) {
      StandsBeforeLater(keys, list[a], list[b]);
    }
    forall a, b | 0 <= a < b < |longer| ensures StandsBefore(keys, longer[a], longer[b]) {
      assert longer[b] == list[b - 1];
      if a == 0 {
        assert list[b - 1] in list;
        var j :| 0 <= j < |keys[1..]| && keys[1..][j] == list[b - 1];
        assert keys[j + 1] == longer[b] && keys[0] == longer[a];
      } else {
        assert longer[a] == list[a - 1];
      }
    }
  }

  // Siblings stand in the order of the keys.
  lemma {:induction false} ChildrenInKeyOrder<K(!new)>(keys: seq<K>, parent: map<K, K>, p: Option<K>)
    ensures InOrderOf(keys, Children(keys, parent, p))
  {
    if keys != [] {
      ChildrenInKeyOrder(keys[1..], parent, p);
      InOrderOfMore(keys, Children(keys[1..], parent, p));
    }
  }

  lemma StandsBeforeLater<K>(keys: seq<K>, a: K, b: K)
    requires keys != [] && StandsBefore(keys[1..], a, b)
    ensures StandsBefore(keys, a, b)
  {
    var i, j :| 0 <= i < j < |keys[1..]| && keys[1..][i] == a && keys[1..][j] == b;
    assert keys[i + 1] == a && keys[j + 1] == b;
  }

  function Up<K(==)>(parent: map<K, K>, k: K): Option<K> {
    if k in parent then Some(parent[k]) else None
  }

  ghost predicate IsMapping<K(!new)>(keys: seq<K>, parent: map<K, K>) {
    && NoDuplicates(keys)
    && forall k :: k in parent ==> k in keys && parent[k] in keys
  }

  ghost predicate AllBelow<K>(parent: map<K, K>, list: seq<K>, d: nat) {
    forall k :: k in list ==> Rooted(parent, k) && Depth(parent, k) >= d
  }

  lemma ChildrenBelow<K(!new)>(keys: seq<K>, parent: map<K, K>, key: K)
    requires Rooted(parent, key)
    ensures AllBelow(parent, Children(keys, parent, Some(key)), Depth(parent, key) + 1)
    ensures Depth(parent, key) <= |parent.Keys|
    ensures Depth(parent, key) == |parent.Keys| ==> Children(keys, parent, Some(key)) == []
  {
    DepthBound(parent, key);
    var c := Children(keys, parent, Some(key));
    forall k | k in c ensures Rooted(parent, k) && Depth(parent, k) == Depth(parent, key) + 1 <= |parent.Keys| {
      DepthOfChild(parent, k);
      DepthBound(parent, k);
    }
    if c != [] {
      assert c[0] in c;
    }
  }

  // Recursive preorder below a rooted key: the key, then its children's preorders in key order.
  ghost function Preorder<K(!new)>(keys: seq<K>, parent: map<K, K>, key: K): seq<K>
    requires Rooted(parent, key)
    decreases |parent.Keys| - Depth(parent, key), 0
  {
    ChildrenBelow(keys, parent, key);
    [key] + PreorderAll(keys, parent, Children(keys, parent, Some(key)), Depth(parent, key) + 1)
  }

  // The preorders of a list of keys, one after the other; d is a depth none of them is above.
  ghost function PreorderAll<K(!new)>(keys: seq<K>, parent: map<K, K>, list: seq<K>, d: nat): seq<K>
    requires AllBelow(parent, list, d)
    decreases |parent.Keys| - d, |list|
  {
    if list == [] then []
    else
      DepthBound(parent, list[0]);
      Preorder(keys, parent, list[0]) + PreorderAll(keys, parent, list[1..], d)
  }

  // The whole walk: the roots in key order.
  ghost function Walk<K(!new)>(keys: seq<K>, parent: map<K, K>): seq<K> {
    RootsRooted(keys, parent);
    PreorderAll(keys, parent, Children(keys, parent, None), 0)
  }

  lemma RootsRooted<K(!new)>(keys: seq<K>, parent: map<K, K>)
    ensures AllBelow(parent, Children(keys, parent, None), 0)
    ensures forall k :: k in Children(keys, parent, None) ==> Rooted(parent, k) && Depth(parent, k) == 0
  {
    forall k | k in Children(keys, parent, None) ensures Rooted(parent, k) && Depth(parent, k) == 0 {
      DepthOfRoot(parent, k);
    }
  }

  lemma {:induction false} PreorderAllAnyDepth<K(!new)>(
    keys: seq<K>, parent: map<K, K>, list: seq<K>, d: nat, e: nat)
    requires AllBelow(parent, list, d) && AllBelow(parent, list, e)
    ensures PreorderAll(keys, parent, list, d) == PreorderAll(keys, parent, list, e)
    decreases |list|
  {
    if list != [] {
      PreorderAllAnyDepth(keys, parent, list[1..], d, e);
    }
  }

  lemma {:induction false} PreorderAllConcat<K(!new)>(
    keys: seq<K>, parent: map<K, K>, a: seq<K>, b: seq<K>, d: nat)
    requires AllBelow(parent, a, d) && AllBelow(parent, b, d) && AllBelow(parent, a + b, d)
    ensures PreorderAll(keys, parent, a + b, d) ==
      PreorderAll(keys, parent, a, d) + PreorderAll(keys, parent, b, d)
    decreases |a|
  {
    if a == [] {
      assert a + b == b;
    } else {
      FirstOfConcat(a, b);
      PreorderAllCons(keys, parent, a[0], a[1..] + b, d);
      PreorderAllConcat(keys, parent, a[1..], b, d);
      ThreeInOrder(
        Preorder(keys, parent, a[0]), PreorderAll(keys, parent, a[1..], d), PreorderAll(keys, parent, b, d));
    }
  }

  lemma ThreeInOrder<T>(x: seq<T>, y: seq<T>, z: seq<T>)
    ensures x + (y + z) == (x + y) + z
  {
  }

  lemma FirstOfConcat<T>(a: seq<T>, b: seq<T>)
    requires a != []
    ensures a + b == [a[0]] + (a[1..] + b)
  {
  }

  lemma PreorderAllCons<K(!new)>(keys: seq<K>, parent: map<K, K>, key: K, tail: seq<K>, d: nat)
    requires AllBelow(parent, [key] + tail, d)
    ensures AllBelow(parent, tail, d) && Rooted(parent, key)
    ensures PreorderAll(keys, parent, [key] + tail, d) ==
      Preorder(keys, parent, key) + PreorderAll(keys, parent, tail, d)
  {
    assert ([key] + tail)[1..] == tail;
    assert key in [key] + tail;
    assert forall k :: k in tail ==> k in [key] + tail;
  }

  // ---------------------------------------------------------------- what the walk visits

  // The ancestor of x that has depth d.
  ghost function AncestorAt<K(!new)>(parent: map<K, K>, x: K, d: nat): (a: K)
    requires Rooted(parent, x) && d <= Depth(parent, x)
    ensures Rooted(parent, a) && Depth(parent, a) == d
    ensures IsAncestor(parent, a, x)
    decreases Depth(parent, x)
  {
    if Depth(parent, x) == d then
      assert Nth(parent, x, 0) == Some(x);
      x
    else
      DepthOfChild(parent, x);
      var a := AncestorAt(parent, parent[x], d);
      var n: nat :| Nth(parent, parent[x], n) == Some(a);
      assert Nth(parent, x, n + 1) == Some(a);
      a
  }

  // x lies in the subtree of `key`.
  ghost predicate Under<K(!new)>(parent: map<K, K>, key: K, x: K)
    requires Rooted(parent, key)
  {
    && Rooted(parent, x) && Depth(parent, x) >= Depth(parent, key)
    && AncestorAt(parent, x, Depth(parent, key)) == key
  }

  lemma UnderChild<K(!new)>(parent: map<K, K>, key: K, x: K)
    requires Rooted(parent, key) && Rooted(parent, x) && Depth(parent, x) > Depth(parent, key)
    ensures AncestorAt(parent, x, Depth(parent, key) + 1) in parent
    ensures parent[AncestorAt(parent, x, Depth(parent, key) + 1)] == AncestorAt(parent, x, Depth(parent, key))
    decreases Depth(parent, x)
  {
    var d := Depth(parent, key);
    if Depth(parent, x) > d + 1 {
      DepthOfChild(parent, x);
      UnderChild(parent, key, parent[x]);
    } else {
      assert AncestorAt(parent, x, d + 1) == x;
      DepthOfChild(parent, x);
    }
  }

  // x lies in the subtree of one of these keys, all at depth d.
  ghost predicate UnderOneOf<K(!new)>(parent: map<K, K>, list: seq<K>, d: nat, x: K) {
    Rooted(parent, x) && Depth(parent, x) >= d && AncestorAt(parent, x, d) in list
  }

  // Below a key lie the key itself and whatever lies below one of its children.
  lemma UnderKeyOrChild<K(!new)>(keys: seq<K>, parent: map<K, K>, key: K, x: K)
    requires IsMapping(keys, parent) && Rooted(parent, key)
    ensures Under(parent, key, x) <==>
      x == key || UnderOneOf(parent, Children(keys, parent, Some(key)), Depth(parent, key) + 1, x)
  {
    if Rooted(parent, x) && Depth(parent, x) > Depth(parent, key) {
      UnderChild(parent, key, x);
    }
  }

  lemma ChildrenDepth<K(!new)>(keys: seq<K>, parent: map<K, K>, key: K)
    requires Rooted(parent, key)
    ensures AllAtDepth(parent, Children(keys, parent, Some(key)), Depth(parent, key) + 1)
  {
    forall c | c in Children(keys, parent, Some(key))
      ensures Rooted(parent, c) && Depth(parent, c) == Depth(parent, key) + 1
    {
      DepthOfChild(parent, c);
    }
  }

  ghost predicate AllAtDepth<K(!new)>(parent: map<K, K>, list: seq<K>, d: nat) {
    forall c :: c in list ==> Rooted(parent, c) && Depth(parent, c) == d
  }

  // The list is a subtree, each key once.
  ghost predicate IsSubtree<K(!new)>(parent: map<K, K>, key: K, list: seq<K>)
    requires Rooted(parent, key)
  {
    NoDuplicates(list) && forall x :: x in list <==> Under(parent, key, x)
  }

  ghost predicate AreSubtrees<K(!new)>(parent: map<K, K>, tops: seq<K>, d: nat, list: seq<K>) {
    NoDuplicates(list) && forall x :: x in list <==> UnderOneOf(parent, tops, d, x)
  }

  lemma {:induction false} PreorderMembers<K(!new)>(keys: seq<K>, parent: map<K, K>, key: K) returns (list: seq<K>)
    requires IsMapping(keys, parent) && Rooted(parent, key)
    ensures list == Preorder(keys, parent, key) && IsSubtree(parent, key, list)
    decreases |parent.Keys| - Depth(parent, key), 0
  {
    ChildrenAreTops(keys, parent, key);
    var below := PreorderAllMembers(keys, parent, Children(keys, parent, Some(key)), Depth(parent, key) + 1);
    list := [key] + below;
    KeyThenBelow(keys, parent, key, below, list);
  }

  lemma ChildrenAreTops<K(!new)>(keys: seq<K>, parent: map<K, K>, key: K)
    requires IsMapping(keys, parent) && Rooted(parent, key)
    ensures
      var d, children := Depth(parent, key), Children(keys, parent, Some(key));
      && AllBelow(parent, children, d + 1) && AllAtDepth(parent, children, d + 1) && NoDuplicates(children)
      && d < |parent.Keys| + 1
  {
    ChildrenBelow(keys, parent, key);
    ChildrenDepth(keys, parent, key);
    ChildrenDistinct(keys, parent, Some(key));
    DepthBound(parent, key);
  }

  lemma KeyThenBelow<K(!new)>(keys: seq<K>, parent: map<K, K>, key: K, below: seq<K>, list: seq<K>)
    requires IsMapping(keys, parent) && Rooted(parent, key) && list == [key] + below
    requires AreSubtrees(parent, Children(keys, parent, Some(key)), Depth(parent, key) + 1, below)
    ensures IsSubtree(parent, key, list)
  {
    NoDuplicatesConcat([key], below);
    forall x ensures x in list <==> Under(parent, key, x) {
      UnderKeyOrChild(keys, parent, key, x);
    }
  }

  lemma FirstAndRest<K(!new)>(parent: map<K, K>, list: seq<K>, d: nat, first: seq<K>, rest: seq<K>, all: seq<K>)
    requires list != [] && all == first + rest && NoDuplicates(list) && AllAtDepth(parent, list, d)
    requires IsSubtree(parent, list[0], first) && AreSubtrees(parent, list[1..], d, rest)
    ensures AreSubtrees(parent, list, d, all)
  {
    assert list[0] !in list[1..];
    NoDuplicatesConcat(first, rest);
  }

  lemma {:induction false} PreorderAllMembers<K(!new)>(keys: seq<K>, parent: map<K, K>, tops: seq<K>, d: nat)
    returns (list: seq<K>)
    requires IsMapping(keys, parent) && AllBelow(parent, tops, d) && NoDuplicates(tops)
    requires AllAtDepth(parent, tops, d)
    ensures list == PreorderAll(keys, parent, tops, d) && AreSubtrees(parent, tops, d, list)
    decreases |parent.Keys| - d, |tops|
  {
    list := [];
    if tops != [] {
      DepthBound(parent, tops[0]);
      var first := PreorderMembers(keys, parent, tops[0]);
      assert NoDuplicates(tops[1..]);
      var rest := PreorderAllMembers(keys, parent, tops[1..], d);
      list := first + rest;
      FirstAndRest(parent, tops, d, first, rest, list);
    }
  }

  lemma {:induction false} ChildrenDistinct<K(!new)>(keys: seq<K>, parent: map<K, K>, p: Option<K>)
    requires NoDuplicates(keys)
    ensures NoDuplicates(Children(keys, parent, p))
  {
    if keys != [] {
      assert NoDuplicates(keys[1..]);
      ChildrenDistinct(keys[1..], parent, p);
      assert keys[0] !in keys[1..];
    }
  }

  // The walk visits each key whose parent chain reaches a root exactly once, and no other;
  // the keys it misses are those on or below a parent cycle.
  lemma WalkVisits<K(!new)>(keys: seq<K>, parent: map<K, K>)
    requires IsMapping(keys, parent)
    ensures NoDuplicates(Walk(keys, parent))
    ensures forall x :: x in keys ==> (x in Walk(keys, parent) <==> Rooted(parent, x))
    ensures forall x :: x in Walk(keys, parent) ==> x in keys
    ensures forall x :: x in keys ==> (x !in Walk(keys, parent) <==>
      exists y :: IsAncestor(parent, y, x) && OnCycle(parent, y))
  {
    var roots := Children(keys, parent, None);
    RootsRooted(keys, parent);
    ChildrenDistinct(keys, parent, None);
    var walk := PreorderAllMembers(keys, parent, roots, 0);
    forall x | x in keys
      ensures x in Walk(keys, parent) <==> Rooted(parent, x)
      ensures x !in Walk(keys, parent) <==> exists y :: IsAncestor(parent, y, x) && OnCycle(parent, y)
    {
      RootedIffNoCycleAbove(parent, x);
      if Rooted(parent, x) {
        RootInKeys(keys, parent, x);
      }
    }
    forall x | x in Walk(keys, parent) ensures x in keys {
      if x !in parent {
        DepthOfRoot(parent, x);
        assert AncestorAt(parent, x, 0) == x;
      }
    }
  }

  lemma RootInKeys<K(!new)>(keys: seq<K>, parent: map<K, K>, x: K)
    requires IsMapping(keys, parent) && x in keys && Rooted(parent, x)
    ensures AncestorAt(parent, x, 0) in Children(keys, parent, None)
    decreases Depth(parent, x)
  {
    if x in parent {
      DepthOfChild(parent, x);
      RootInKeys(keys, parent, parent[x]);
    } else {
      DepthOfRoot(parent, x);
    }
  }

  // ---------------------------------------------------------------- flattenMapping

  datatype Part = TextPart(text: string) | OtherPart

  // An absent message, author, content or parts list is None at the level it matters.
  datatype Node = Node(parent: Option<string>, role: Option<string>, parts: Option<seq<Part>>)

  datatype Role = User | Assistant

  datatype Message = Message(role: Role, content: string)

  datatype ParsedConversation = ParsedConversation(title: Option<string>, messages: seq<Message>)

  function ChatRole(role: Option<string>): Option<Role> {
    if role == Some("user") then Some(User)
    else if role == Some("assistant") then Some(Assistant)
    else None
  }

  function TextsOf(parts: seq<Part>): seq<string> {
    if parts == [] then []
    else (if parts[0].TextPart? then [parts[0].text] else []) + TextsOf(parts[1..])
  }

  function JoinLines(texts: seq<string>): string {
    if texts == [] then "" else if |texts| == 1 then texts[0] else texts[0] + "\n" + JoinLines(texts[1..])
  }

  function PartsToContent(parts: Option<seq<Part>>): string {
    match parts
    case None => ""
    case Some(p) => Trim(JoinLines(TextsOf(p)))
  }

  // The message a node contributes, if it is a chat turn with some text.
  function MessageOf(node: Node): seq<Message> {
    var role, content := ChatRole(node.role), PartsToContent(node.parts);
    if role.Some? && content != "" then [Message(role.value, content)] else []
  }

  // ---- who says what, read off the parts from the first to the last

  // The text parts so far, a line break before each but the first.
  ghost function Lines(parts: seq<Part>): Option<string> {
    if parts == [] then None
    else
      var front, last := Lines(parts[..|parts| - 1]), parts[|parts| - 1];
      match last
      case OtherPart => front
      case TextPart(text) => if front.None? then Some(text) else Some(front.value + "\n" + text)
  }

  ghost function RawText(node: Node): string {
    if node.parts.None? then "" else Lines(node.parts.value).GetOr("")
  }

  // A user's or an assistant's turn: its text without the blanks around it, of which something
  // is left.
  ghost predicate Says(node: Node, m: Message) {
    && ((node.role == Some("user") && m.role == User) || (node.role == Some("assistant") && m.role == Assistant))
    && m.content != "" && Trimmed(m.content)
    && exists pre, post :: IsPadded(RawText(node), pre, m.content, post)
  }

  ghost predicate IsPadded(text: string, pre: string, content: string, post: string) {
    Blank(pre) && Blank(post) && text == pre + content + post
  }

  ghost predicate SaysNothing(node: Node) {
    (node.role != Some("user") && node.role != Some("assistant")) || Blank(RawText(node))
  }

  // The messages are what the nodes say, in this order.
  ghost predicate IsTranscript(nodes: seq<Node>, messages: seq<Message>) {
    if nodes == [] then messages == []
    else
      var front, last := nodes[..|nodes| - 1], nodes[|nodes| - 1];
      || (SaysNothing(last) && IsTranscript(front, messages))
      || (messages != [] && Says(last, messages[|messages| - 1])
            && IsTranscript(front, messages[..|messages| - 1]))
  }

  lemma TextsOfMore(parts: seq<Part>, last: Part)
    ensures TextsOf(parts + [last]) == TextsOf(parts) + if last.TextPart? then [last.text] else []
  {
    if parts == [] {
      assert parts + [last] == [last];
    } else {
      assert (parts + [last])[1..] == parts[1..] + [last];
      TextsOfMore(parts[1..], last);
    }
  }

  lemma JoinMoreLines(texts: seq<string>, last: string)
    requires texts != []
    ensures JoinLines(texts + [last]) == JoinLines(texts) + "\n" + last
  {
    var more := texts + [last];
    if |texts| == 1 {
      assert more[1..] == [last];
    } else {
      assert more[1..] == texts[1..] + [last];
      JoinMoreLines(texts[1..], last);
      assert texts[0] + "\n" + (JoinLines(texts[1..]) + "\n" + last) == JoinLines(texts) + "\n" + last;
    }
  }

  lemma {:induction false} LinesAre(parts: seq<Part>)
    ensures Lines(parts).None? <==> TextsOf(parts) == []
    ensures JoinLines(TextsOf(parts)) == Lines(parts).GetOr("")
  {
    if parts != [] {
      var front, last := parts[..|parts| - 1], parts[|parts| - 1];
      LinesAre(front);
      assert front + [last] == parts;
      TextsOfMore(front, last);
      if last.TextPart? {
        if TextsOf(front) == [] {
          assert TextsOf(parts) == [last.text];
        } else {
          JoinMoreLines(TextsOf(front), last.text);
        }
      } else {
        assert TextsOf(parts) == TextsOf(front);
      }
    }
  }

  lemma ContentIs(node: Node)
    ensures PartsToContent(node.parts) == Trim(RawText(node))
  {
    if node.parts.Some? {
      LinesAre(node.parts.value);
    }
  }

  lemma MessageIs(node: Node)
    ensures MessageOf(node) == [] ==> SaysNothing(node)
    ensures MessageOf(node) != [] ==> |MessageOf(node)| == 1 && Says(node, MessageOf(node)[0])
  {
    ContentIs(node);
    var raw := RawText(node);
    BlankIffNothingLeft(raw);
    var pre, post := TrimParts(raw);
    assert IsPadded(raw, pre, Trim(raw), post);
  }

  ghost predicate IsConversation(keys: seq<string>, mapping: map<string, Node>) {
    NoDuplicates(keys) && forall k :: k in mapping <==> k in keys
  }

  // The parent pointer as the flattening reads it: one that leaves the mapping counts as none.
  ghost function ParentMap(keys: seq<string>, mapping: map<string, Node>): map<string, string>
    requires IsConversation(keys, mapping)
  {
    map k | k in mapping && mapping[k].parent.Some? && mapping[k].parent.value in keys :: mapping[k].parent.value
  }

  function Collect<K, M>(order: seq<K>, emit: K -> seq<M>): seq<M> {
    if order == [] then []
    else Collect(order[..|order| - 1], emit) + emit(order[|order| - 1])
  }

  lemma CollectOneMore<K, M>(order: seq<K>, key: K, emit: K -> seq<M>)
    ensures Collect(order + [key], emit) == Collect(order, emit) + emit(key)
  {
    assert (order + [key])[..|order|] == order;
  }

  lemma BucketsStep<K(!new)>(m: map<Option<K>, seq<K>>, keys: seq<K>, key: K, parent: map<K, K>)
    requires forall p :: Bucket(m, p) == Children(keys, parent, p)
    ensures forall p ::
      Bucket(m[Up(parent, key) := Bucket(m, Up(parent, key)) + [key]], p) == Children(keys + [key], parent, p)
  {
    var up := Up(parent, key);
    forall p ensures Bucket(m[up := Bucket(m, up) + [key]], p) == Children(keys + [key], parent, p) {
      ChildrenAppend(keys, key, parent, p);
    }
  }

  // The buckets filled in key order.
  method BuildBuckets<K(==,!new)>(keys: seq<K>, parentOf: K -> Option<K>, ghost parent: map<K, K>)
    returns (childrenByParent: map<Option<K>, seq<K>>)
    requires forall k :: k in keys ==> parentOf(k) == Up(parent, k)
    ensures forall p :: Bucket(childrenByParent, p) == Children(keys, parent, p)
  {
    childrenByParent := map[];
    for i := 0 to |keys|
      invariant forall p :: Bucket(childrenByParent, p) == Children(keys[..i], parent, p)
    {
      var key := keys[i];
      var up := parentOf(key);
      assert keys[..i + 1] == keys[..i] + [key];
      BucketsStep(childrenByParent, keys[..i], key, parent);
      childrenByParent := childrenByParent[up := Bucket(childrenByParent, up) + [key]];
    }
    assert keys[..|keys|] == keys;
  }

  function Bucket<K(==)>(m: map<Option<K>, seq<K>>, p: Option<K>): seq<K> {
    if p in m then m[p] else []
  }

  lemma {:induction false} ChildrenAppend<K(!new)>(keys: seq<K>, key: K, parent: map<K, K>, p: Option<K>)
    ensures Children(keys + [key], parent, p) == Children(keys, parent, p) + if Up(parent, key) == p then [key] else []
  {
    if keys == [] {
      assert keys + [key] == [key];
      assert [key][1..] == [];
    } else {
      var last := if Up(parent, key) == p then [key] else [];
      assert (keys + [key])[1..] == keys[1..] + [key];
      ChildrenAppend(keys[1..], key, parent, p);
      OneThenTwo(keys[0], Children(keys[1..], parent, p), last);
    }
  }

  lemma OneThenTwo<T>(x: T, a: seq<T>, b: seq<T>)
    ensures [x] + (a + b) == [x] + a + b
  {
  }

  function Reverse<T>(s: seq<T>): (r: seq<T>)
    ensures |r| == |s| && forall i :: 0 <= i < |s| ==> r[i] == s[|s| - 1 - i]
  {
    seq(|s|, i requires 0 <= i < |s| => s[|s| - 1 - i])
  }

  // What is still to be visited: the preorders of the stacked keys, top of the stack first.
  ghost function Pending<K(!new)>(keys: seq<K>, parent: map<K, K>, stack: seq<K>): seq<K>
    requires AllBelow(parent, Reverse(stack), 0)
  {
    PreorderAll(keys, parent, Reverse(stack), 0)
  }

  lemma AllBelowConcat<K(!new)>(parent: map<K, K>, a: seq<K>, b: seq<K>, d: nat)
    requires AllBelow(parent, a, d) && AllBelow(parent, b, 0)
    ensures AllBelow(parent, a, 0) && AllBelow(parent, a + b, 0)
  {
  }

  lemma ExpandHead<K(!new)>(keys: seq<K>, parent: map<K, K>, key: K, tail: seq<K>)
    requires AllBelow(parent, [key] + tail, 0)
    ensures Rooted(parent, key)
    ensures AllBelow(parent, Children(keys, parent, Some(key)) + tail, 0)
    ensures PreorderAll(keys, parent, [key] + tail, 0) ==
      [key] + PreorderAll(keys, parent, Children(keys, parent, Some(key)) + tail, 0)
  {
    var children := Children(keys, parent, Some(key));
    PreorderAllCons(keys, parent, key, tail, 0);
    ChildrenBelow(keys, parent, key);
    AllBelowConcat(parent, children, tail, Depth(parent, key) + 1);
    PreorderAllAnyDepth(keys, parent, children, 0, Depth(parent, key) + 1);
    PreorderAllConcat(keys, parent, children, tail, 0);
  }

  // Popping a key and pushing its children in reverse replaces its preorder by the key
  // followed by the preorders of its children.
  lemma PopAndPush<K(!new)>(keys: seq<K>, parent: map<K, K>, rest: seq<K>, key: K)
    requires AllBelow(parent, Reverse(rest + [key]), 0)
    ensures Rooted(parent, key)
    ensures AllBelow(parent, Reverse(rest + Reverse(Children(keys, parent, Some(key)))), 0)
    ensures Pending(keys, parent, rest + [key]) ==
      [key] + Pending(keys, parent, rest + Reverse(Children(keys, parent, Some(key))))
  {
    var children := Children(keys, parent, Some(key));
    var before, after := Reverse(rest + [key]), Reverse(rest + Reverse(children));
    assert before == [key] + Reverse(rest);
    assert after == children + Reverse(rest);
    ExpandHead(keys, parent, key, Reverse(rest));
  }

  lemma {:induction false} CountsOfDistinct<T>(s: seq<T>, x: T)
    requires NoDuplicates(s)
    ensures multiset(s)[x] <= 1
  {
    if s != [] {
      assert s == s[..|s| - 1] + [s[|s| - 1]];
      CountsOfDistinct(s[..|s| - 1], x);
    }
  }

  lemma SameKeysDistinct<T>(a: seq<T>, b: seq<T>)
    requires NoDuplicates(a) && multiset(a) == multiset(b)
    ensures NoDuplicates(b)
  {
    forall i, j | 0 <= i < j < |b| ensures b[i] != b[j] {
      CountsOfDistinct(a, b[i]);
      assert b == b[..j] + b[j..];
      assert b[i] in multiset(b[..j]) && b[j] in multiset(b[j..]);
    }
  }

  // How far the walk has come: what is visited, followed by what the stack still holds.
  ghost predicate Progress<K(!new)>(keys: seq<K>, parent: map<K, K>, order: seq<K>, stack: seq<K>) {
    && AllBelow(parent, Reverse(stack), 0)
    && Walk(keys, parent) == order + Pending(keys, parent, stack)
  }

  lemma StartOfWalk<K(!new)>(keys: seq<K>, parent: map<K, K>)
    ensures Progress(keys, parent, [], Reverse(Children(keys, parent, None)))
  {
    var roots := Children(keys, parent, None);
    RootsRooted(keys, parent);
    assert Reverse(Reverse(roots)) == roots;
    assert Walk(keys, parent) == [] + Pending(keys, parent, Reverse(roots));
  }

  lemma NextOfWalk<K(!new)>(keys: seq<K>, parent: map<K, K>, order: seq<K>, rest: seq<K>, key: K)
    requires IsMapping(keys, parent) && Progress(keys, parent, order, rest + [key])
    ensures key !in order && key in keys && |order| < |Walk(keys, parent)|
    ensures Progress(keys, parent, order + [key], rest + Reverse(Children(keys, parent, Some(key))))
  {
    var walk := Walk(keys, parent);
    WalkVisits(keys, parent);
    PopAndPush(keys, parent, rest, key);
    assert walk[|order|] == key && key in walk;
    assert walk == order + [key] + Pending(keys, parent, rest + Reverse(Children(keys, parent, Some(key))));
    forall i | 0 <= i < |order| ensures order[i] != key {
      assert walk[i] == order[i];
    }
  }

  lemma EndOfWalk<K(!new)>(keys: seq<K>, parent: map<K, K>, order: seq<K>)
    requires IsMapping(keys, parent) && Progress(keys, parent, order, [])
    ensures order == Walk(keys, parent) && NoDuplicates(order)
  {
    WalkVisits(keys, parent);
    assert Reverse<K>([]) == [];
  }

  // What the loop has gathered from the keys visited so far.
  ghost predicate Gathered<K(!new), M>(
    order: seq<K>, stack: seq<K>, visited: set<K>, messages: seq<M>, pushed: seq<K>, emit: K -> seq<M>)
  {
    && (forall k :: k in visited <==> k in order)
    && messages == Collect(order, emit)
    && multiset(pushed) == multiset(order) + multiset(stack)
  }

  lemma GatheredOneMore<K(!new), M>(
    order: seq<K>, rest: seq<K>, visited: set<K>, messages: seq<M>, pushed: seq<K>, emit: K -> seq<M>, key: K,
    below: seq<K>)
    requires Gathered(order, rest + [key], visited, messages, pushed, emit)
    ensures
      Gathered(
        order + [key], rest + below, visited + {key}, messages + emit(key), pushed + below, emit)
  {
    CollectOneMore(order, key, emit);
  }

  // The stack loop. It equals the recursive preorder walk, and `pushed`, everything ever put
  // on the stack, holds no key twice.
  method WalkStack<K(==,!new), M>(
    ghost keys: seq<K>, ghost parent: map<K, K>, roots: seq<K>, childrenOf: K -> seq<K>, emit: K -> seq<M>)
    returns (messages: seq<M>, ghost pushed: seq<K>)
    requires IsMapping(keys, parent)
    requires roots == Children(keys, parent, None)
    requires forall k :: childrenOf(k) == Children(keys, parent, Some(k))
    ensures messages == Collect(Walk(keys, parent), emit)
    ensures NoDuplicates(pushed) && multiset(pushed) == multiset(Walk(keys, parent))
  {
    messages := [];
    var visited: set<K> := {};
    var stack := Reverse(roots);
    ghost var order: seq<K> := [];
    pushed := stack;
    StartOfWalk(keys, parent);
    while |stack| > 0
      invariant Progress(keys, parent, order, stack) && Gathered(order, stack, visited, messages, pushed, emit)
      decreases |Walk(keys, parent)| - |order|
    {
      var key := stack[|stack| - 1];
      var rest := stack[..|stack| - 1];
      assert stack == rest + [key];
      NextOfWalk(keys, parent, order, rest, key);
      stack := rest;
      if key !in visited {
        GatheredOneMore(order, rest, visited, messages, pushed, emit, key, Reverse(childrenOf(key)));
        visited := visited + {key};
        messages := messages + emit(key);
        order := order + [key];
        stack := rest + Reverse(childrenOf(key));
        pushed := pushed + Reverse(childrenOf(key));
      }
    }
    EndOfWalk(keys, parent, order);
    SameKeysDistinct(order, pushed);
  }

  function NodeMessages(mapping: map<string, Node>, key: string): seq<Message> {
    if key in mapping then MessageOf(mapping[key]) else []
  }

  method FlattenMapping(title: Option<string>, keys: seq<string>, mapping: map<string, Node>)
    returns (conversation: ParsedConversation, ghost pushed: seq<string>)
    requires IsConversation(keys, mapping)
    ensures conversation == ParsedConversation(
      title, Collect(Walk(keys, ParentMap(keys, mapping)), key => NodeMessages(mapping, key)))
    ensures
      var walk := Walk(keys, ParentMap(keys, mapping));
      (forall k :: k in walk ==> k in mapping) && IsTranscript(NodesOf(walk, mapping), conversation.messages)
    ensures NoDuplicates(pushed) && multiset(pushed) == multiset(Walk(keys, ParentMap(keys, mapping)))
  {
    var parentOf := key =>
      if key in mapping && mapping[key].parent.Some? && mapping[key].parent.value in keys
      then mapping[key].parent else None;
    var childrenByParent := BuildBuckets(keys, parentOf, ParentMap(keys, mapping));
    var messages;
    messages, pushed := WalkStack(keys, ParentMap(keys, mapping), Bucket(childrenByParent, None),
      key => Bucket(childrenByParent, Some(key)), key => NodeMessages(mapping, key));
    conversation := ParsedConversation(title, messages);
    WalkVisits(keys, ParentMap(keys, mapping));
    TranscriptOf(Walk(keys, ParentMap(keys, mapping)), mapping, key => NodeMessages(mapping, key));
  }

  ghost function NodesOf(order: seq<string>, mapping: map<string, Node>): (nodes: seq<Node>)
    requires forall k :: k in order ==> k in mapping
    ensures |nodes| == |order| && forall i :: 0 <= i < |order| ==> nodes[i] == mapping[order[i]]
  {
    seq(|order|, i requires 0 <= i < |order| => mapping[order[i]])
  }

  lemma {:induction false} TranscriptOf(
    order: seq<string>, mapping: map<string, Node>, emit: string -> seq<Message>)
    requires forall k :: k in order ==> k in mapping
    requires forall k :: k in order ==> emit(k) == MessageOf(mapping[k])
    ensures IsTranscript(NodesOf(order, mapping), Collect(order, emit))
  {
    if order != [] {
      var front, key := order[..|order| - 1], order[|order| - 1];
      TranscriptOf(front, mapping, emit);
      MessageIs(mapping[key]);
      var nodes, before := NodesOf(order, mapping), Collect(front, emit);
      assert nodes[..|nodes| - 1] == NodesOf(front, mapping);
      if MessageOf(mapping[key]) == [] {
        assert Collect(order, emit) == before;
      } else {
        assert Collect(order, emit)[..|before|] == before;
      }
    }
  }
}
