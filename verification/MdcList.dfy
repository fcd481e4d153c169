/** The list of one thread's MDC pairs: a doubly linked list that stands for an ordered map. */
module MdcList {
  import opened CStrings
  import opened Escaping
  import opened Wrappers

  datatype Pair = Pair(key: string, value: string)

  // ----- the ordered map that the list stands for -----

  /** Index of the first pair with `key`, or the length. */
  function IndexOf(list: seq<Pair>, key: string): (i: nat)
    ensures i <= |list|
    ensures i < |list| ==> list[i].key == key
    ensures forall j :: 0 <= j < i ==> list[j].key != key
  {
    if list == [] || list[0].key == key then 0 else 1 + IndexOf(list[1..], key)
  }

  /** A present key keeps its place, a new key goes to the front. */
  function PutPair(list: seq<Pair>, key: string, value: string): seq<Pair> {
    var i := IndexOf(list, key);
    if i < |list| then list[i := Pair(key, value)] else [Pair(key, value)] + list
  }

  /** The list once an entry for `key` is there. */
  function WithKey(list: seq<Pair>, key: string): seq<Pair> {
    if IndexOf(list, key) < |list| then list else [Pair(key, "")] + list
  }

  function Position(list: seq<Pair>, key: string): (i: nat)
    ensures i < |WithKey(list, key)| && WithKey(list, key)[i].key == key
  {
    if IndexOf(list, key) < |list| then IndexOf(list, key) else 0
  }

  lemma PutIsUpdateInPlace(list: seq<Pair>, key: string, value: string)
    ensures PutPair(list, key, value) == WithKey(list, key)[Position(list, key) := Pair(key, value)]
  {
  }

  function RemoveKey(list: seq<Pair>, key: string): seq<Pair> {
    var i := IndexOf(list, key);
    if i < |list| then list[..i] + list[i + 1..] else list
  }

  function Lookup(list: seq<Pair>, key: string): Option<string> {
    var i := IndexOf(list, key);
    if i < |list| then Some(list[i].value) else None
  }

  ghost predicate UniqueKeys(list: seq<Pair>) {
    forall i, j :: 0 <= i < j < |list| ==> list[i].key != list[j].key
  }

  ghost function AsMap(list: seq<Pair>): map<string, string> {
    map k | k in (set i | 0 <= i < |list| :: list[i].key) :: list[IndexOf(list, k)].value
  }

  lemma AsMapLookup(list: seq<Pair>, key: string)
    ensures key in AsMap(list) <==> IndexOf(list, key) < |list|
    ensures Lookup(list, key) == Find(AsMap(list), key)
  {
  }

  ghost function Find(m: map<string, string>, key: string): Option<string> {
    if key in m then Some(m[key]) else None
  }

  /** A list stands for the map that answers every lookup as the list does. */
  lemma SameLookups(list: seq<Pair>, m: map<string, string>)
    requires forall k: string :: Lookup(list, k) == Find(m, k)
    ensures AsMap(list) == m
  {
    forall k: string ensures k in AsMap(list) <==> k in m {
      AsMapLookup(list, k);
    }
    forall k | k in m ensures AsMap(list)[k] == m[k] {
      AsMapLookup(list, k);
    }
  }

  lemma IndexIs(list: seq<Pair>, key: string, i: nat)
    requires i <= |list| && (i < |list| ==> list[i].key == key)
    requires forall j :: 0 <= j < i ==> list[j].key != key
    ensures IndexOf(list, key) == i
  {
  }

  lemma PutLookup(list: seq<Pair>, key: string, value: string, k: string)
    ensures Lookup(PutPair(list, key, value), k) == if k == key then Some(value) else Lookup(list, k)
  {
    var after, j := PutPair(list, key, value), IndexOf(list, k);
    if IndexOf(list, key) < |list| {
      IndexIs(after, k, j);
    } else if k == key {
      IndexIs(after, k, 0);
    } else {
      IndexIs(after, k, j + 1);
    }
  }

  lemma RemoveLookup(list: seq<Pair>, key: string, k: string)
    requires UniqueKeys(list)
    ensures Lookup(RemoveKey(list, key), k) == if k == key then None else Lookup(list, k)
  {
    var after, d, j := RemoveKey(list, key), IndexOf(list, key), IndexOf(list, k);
    if d < |list| {
      assert forall n :: 0 <= n < |after| ==> after[n] == list[if n < d then n else n + 1];
      IndexIs(after, k, if k == key || j == |list| then |after| else if j < d then j else j - 1);
    }
  }

  lemma RemoveKeepsUnique(list: seq<Pair>, key: string)
    requires UniqueKeys(list)
    ensures UniqueKeys(RemoveKey(list, key))
  {
    var after, d := RemoveKey(list, key), IndexOf(list, key);
    assert forall n :: 0 <= n < |after| ==> after[n] == list[if n < d then n else n + 1];
  }

  /** Putting is a map update that keeps the keys unique. */
  lemma PutRefinesUpdate(list: seq<Pair>, key: string, value: string)
    requires UniqueKeys(list)
    ensures UniqueKeys(PutPair(list, key, value))
    ensures AsMap(PutPair(list, key, value)) == AsMap(list)[key := value]
  {
    forall k: string ensures Lookup(PutPair(list, key, value), k) == Find(AsMap(list)[key := value], k) {
      PutLookup(list, key, value, k);
      AsMapLookup(list, k);
    }
    SameLookups(PutPair(list, key, value), AsMap(list)[key := value]);
  }

  /** Removing takes exactly that key out of the map. */
  lemma RemoveRefinesDeletion(list: seq<Pair>, key: string)
    requires UniqueKeys(list)
    ensures UniqueKeys(RemoveKey(list, key))
    ensures AsMap(RemoveKey(list, key)) == AsMap(list) - {key}
  {
    RemoveKeepsUnique(list, key);
    forall k: string ensures Lookup(RemoveKey(list, key), k) == Find(AsMap(list) - {key}, k) {
      RemoveLookup(list, key, k);
      AsMapLookup(list, k);
    }
    SameLookups(RemoveKey(list, key), AsMap(list) - {key});
  }

  // ----- the linked list -----

  class Node {
    var prev: Node?
    var next: Node?
    var key: CString
    var value: CString
    ghost var freed: bool
    ghost var owner: List?  // the list that the node was added to

    /** A zeroed entry with its key duplicated into it; the value is filled in later. */
    constructor (key: CString)
      ensures prev == null && next == null && this.key == key && value == "" && !freed
    {
      prev, next := null, null;
      this.key, value := key, "";
      freed := false;
    }
  }

  /** `nodes` are linked in this order: `next` and `prev` are inverse, and the ends are null. */
  ghost predicate Chain(nodes: seq<Node>)
    reads nodes
  {
    && (forall i, j :: 0 <= i < j < |nodes| ==> nodes[i] != nodes[j])
    && (forall i {:trigger nodes[i].prev} :: 0 < i < |nodes| ==> nodes[i].prev == nodes[i - 1])
    && (forall i {:trigger nodes[i].next} :: 0 <= i < |nodes| - 1 ==> nodes[i].next == nodes[i + 1])
    && (nodes != [] ==> nodes[0].prev == null && nodes[|nodes| - 1].next == null)
  }

  /** `nodes` are not freed and hold the pairs of `list`. */
  ghost predicate Hold(nodes: seq<Node>, list: seq<Pair>)
    reads nodes
  {
    && |list| == |nodes|
    && forall i {:trigger nodes[i].freed} {:trigger nodes[i].key} {:trigger list[i]} ::
      0 <= i < |nodes| ==> !nodes[i].freed && list[i] == Pair(nodes[i].key, nodes[i].value)
  }

  ghost function Neighbour(n: Node?): set<Node> { if n == null then {} else {n} }

  ghost function First(nodes: seq<Node>): Node? { if nodes == [] then null else nodes[0] }

  lemma MembersWithout(s: seq<Node>, k: nat)
    requires k < |s|
    ensures forall n :: n in s <==> n == s[k] || n in s[..k] + s[k + 1..]
  {
    assert s == s[..k] + [s[k]] + s[k + 1..];
  }

  class List {
    var head: Node?
    ghost var nodes: seq<Node>

    ghost var contents: seq<Pair>

    ghost function NodeSet(): set<Node>
      reads this
    {
      set n | n in nodes
    }

    ghost predicate Valid()
      reads this, NodeSet()
    {
      assert forall n :: n in nodes ==> n in NodeSet();
      head == First(nodes) && Chain(nodes) && Hold(nodes, contents) && forall n :: n in NodeSet() ==> n.owner == this
    }

    constructor ()
      ensures Valid() && nodes == [] && contents == []
    {
      head := null;
      nodes, contents := [], [];
    }

    method AddToList(mdc: Node)
      requires Valid() && mdc !in nodes && mdc.prev == null && mdc.next == null && !mdc.freed
      modifies this, mdc`next, mdc`owner, Neighbour(head)`prev
      ensures Valid() && nodes == [mdc] + old(nodes)
      ensures contents == [Pair(mdc.key, mdc.value)] + old(contents)
    {
      if head != null {
        mdc.next := head;
        head.prev := mdc;
      }
      head := mdc;
      mdc.owner := this;
      nodes, contents := [mdc] + nodes, [Pair(mdc.key, mdc.value)] + contents;
    }

    /** Releases an entry; releasing one twice would violate the precondition. */
    static method MdcDestroy(mdc: Node)
      requires !mdc.freed
      modifies mdc`freed
      ensures mdc.freed
    {
      mdc.freed := true;
    }

    /** The pointer updates of a removal. */
    method Unlink(mdc: Node, ghost k: nat)
      requires head == First(nodes) && Chain(nodes) && k < |nodes| && nodes[k] == mdc
      modifies this`head, this`nodes, Neighbour(mdc.prev)`next, Neighbour(mdc.next)`prev
      ensures head == First(nodes) && Chain(nodes) && nodes == old(nodes)[..k] + old(nodes)[k + 1..]
    {
      assert mdc.prev == if k == 0 then null else nodes[k - 1];
      assert mdc.next == if k + 1 == |nodes| then null else nodes[k + 1];
      if mdc == head {
        head := mdc.next;
      }
      if mdc.prev != null {
        mdc.prev.next := mdc.next;
      }
      if mdc.next != null {
        mdc.next.prev := mdc.prev;
      }
      ghost var before := nodes;
      nodes := nodes[..k] + nodes[k + 1..];
      assert forall i {:trigger nodes[i]} :: 0 <= i < |nodes| ==> nodes[i] == before[if i < k then i else i + 1];
    }

    method RmFromList(mdc: Node, ghost k: nat)
      requires Valid() && k < |nodes| && nodes[k] == mdc
      modifies this, Neighbour(mdc.prev)`next, Neighbour(mdc.next)`prev, mdc`freed
      ensures Valid() && nodes == old(nodes)[..k] + old(nodes)[k + 1..]
      ensures contents == old(contents)[..k] + old(contents)[k + 1..]
      ensures mdc.freed
    {
      Unlink(mdc, k);
      contents := contents[..k] + contents[k + 1..];
      MdcDestroy(mdc);
    }

    /** Frees every node of the list, each once. */
    method Empty()
      requires Valid()
      modifies this, NodeSet()
      ensures Valid() && nodes == [] && contents == []
      ensures forall n :: n in old(nodes) ==> n.freed
    {
      ghost var before := nodes;
      var mdc := head;
      while mdc != null
        invariant Valid() && mdc == head
        invariant forall n :: n in nodes ==> n in before
        invariant forall n :: n in before ==> n.freed || n in nodes
        decreases |nodes|
      {
        var next := mdc.next;
        assert mdc in nodes && nodes[0].prev == null;
        assert next == null || (next == nodes[1] && nodes[1] in nodes);
        MembersWithout(nodes, 0);
        RmFromList(mdc, 0);
        mdc := next;
      }
    }

    method Search(key: CString) returns (mdc: Node?)
      requires Valid()
      ensures var i := IndexOf(contents, key);
        mdc == if i < |nodes| then nodes[i] else null
    {
      mdc := head;
      ghost var i := 0;
      while mdc != null
        invariant 0 <= i <= |nodes| && mdc == if i < |nodes| then nodes[i] else null
        invariant forall j :: 0 <= j < i ==> nodes[j].key != key
        decreases |nodes| - i
      {
        if key == mdc.key {
          return;
        }
        mdc := mdc.next;
        i := i + 1;
      }
    }

    /** Fills in the value of the entry at position `i`. */
    method SetValue(mdc: Node, ghost i: nat, value: CString)
      requires Valid() && i < |nodes| && nodes[i] == mdc
      modifies mdc`value, this`contents
      ensures Valid() && contents == old(contents)[i := Pair(mdc.key, value)]
    {
      mdc.value := value;
      contents := contents[i := Pair(mdc.key, value)];
    }

    /** The entry for `key`, which is added at the front if there is none. */
    method SearchOrAdd(key: CString) returns (mdc: Node, ghost i: nat)
      requires Valid()
      modifies this, NodeSet()
      ensures Valid() && i == Position(old(contents), key) < |nodes| && nodes[i] == mdc && mdc.key == key
      ensures contents == WithKey(old(contents), key)
      ensures forall n :: n in nodes ==> n in old(nodes) || fresh(n)
    {
      var found := Search(key);
      i := Position(contents, key);
      if found == null {
        mdc := new Node(key);
        AddToList(mdc);
      } else {
        mdc := found;
      }
    }

    method Put(key: CString, value: CString)
      requires Valid()
      modifies this, NodeSet()
      ensures Valid() && contents == PutPair(old(contents), key, Escaped(value))
      ensures forall n :: n in nodes ==> n in old(nodes) || fresh(n)
    {
      var mdc, i := SearchOrAdd(key);
      assert mdc in nodes;
      var escaped := EscapeAndCopy(value);
      SetValue(mdc, i, escaped);
      PutIsUpdateInPlace(old(contents), key, escaped);
    }

    method Remove(key: CString)
      requires Valid()
      modifies this, NodeSet()
      ensures Valid()
      ensures contents == RemoveKey(old(contents), key)
      ensures forall n :: n in nodes ==> n in old(nodes)
    {
      var mdc := Search(key);
      if mdc != null {
        RmFromList(mdc, IndexOf(contents, key));
      }
    }
  }

  method EscapeAndCopy(str: CString) returns (copy: CString)
    ensures copy == Escaped(str)
  {
    var len := EscapedSize(str);
    var buf := new char[len];
    var n, _ := Escape(buf, 0, len, str);
    assert str[..|str|] == str;
    EscapedPrintable(str);
    copy := buf[..n];
  }
}
