/** The thread-safe FIFO: heap nodes behind a dummy head. Each operation holds the mutex from its
    first access to the list to its last, so an interleaving of calls is a sequence of them. */
module CommandQueues {
  import opened Wrappers

  class QueueNode<T> {
    var data: Option<T>
    var next: QueueNode?<T>

    constructor (data: Option<T>)
      ensures this.data == data && next == null
    {
      this.data := data;
      next := null;
    }
  }

  class CommandQueue<T> {
    var fakeHead: QueueNode<T>
    var tail: QueueNode<T>
    var size: nat

    /** The nodes in list order, the dummy first, and the data behind it. */
    ghost var nodes: seq<QueueNode<T>>
    ghost var contents: seq<Option<T>>

    /** The list is the path `nodes` from the dummy to a last node with no successor, and visits no
        node twice; `size` counts the dummy too. */
    ghost predicate Valid()
      reads this, nodes
    {
      && size == |nodes| == |contents| + 1
      && fakeHead == nodes[0] && fakeHead.data == None
      && tail == nodes[|nodes| - 1] && tail.next == null
      && (forall i | 0 <= i < |nodes| - 1 :: nodes[i].next == nodes[i + 1])
      && (forall i, j | 0 <= i < j < |nodes| :: nodes[i] != nodes[j])
      && (forall i | 0 <= i < |contents| :: nodes[i + 1].data == contents[i])
    }

    constructor ()
      ensures Valid() && contents == []
      ensures fresh(nodes)
    {
      var dummy := new QueueNode<T>(None);
      fakeHead := dummy;
      tail := dummy;
      size := 1;
      nodes := [dummy];
      contents := [];
    }

    /** Appends. When the node cannot be allocated the call returns with nothing done. */
    method Push(data: Option<T>, nodeAllocated: bool)
      requires Valid()
      modifies this, tail
      ensures Valid()
      ensures contents == if nodeAllocated then old(contents) + [data] else old(contents)
      ensures |nodes| == if nodeAllocated then |old(nodes)| + 1 else |old(nodes)|
      ensures old(nodes) <= nodes && fresh(nodes[|old(nodes)|..])
    {
      if !nodeAllocated {
        return;
      }
      var newNode := new QueueNode<T>(data);
      tail.next := newNode;
      tail := newNode;
      size := size + 1;
      nodes := nodes + [newNode];
      contents := contents + [data];
    }

    /** Takes the first datum; `None` from an empty queue. */
    method Pop() returns (data: Option<T>)
      requires Valid()
      modifies this, fakeHead
      ensures Valid() && fakeHead == old(fakeHead)
      ensures old(contents) == [] ==> data == None && contents == [] && nodes == old(nodes)
      ensures old(contents) != [] ==>
                && data == old(contents)[0] && contents == old(contents)[1..]
                && nodes == [old(nodes)[0]] + old(nodes)[2..]
    {
      var first := fakeHead.next;
      if first == null {
        return None;
      }
      assert first == nodes[1];
      data := first.data;
      fakeHead.next := first.next;
      size := size - 1;
      if tail == first {
        tail := fakeHead;
      }
      nodes := [nodes[0]] + nodes[2..];
      contents := contents[1..];
    }

    method IsEmpty() returns (empty: bool)
      requires Valid()
      ensures empty <==> contents == []
    {
      empty := size == 1;
    }

    /** Frees every node once, front to back, and destroys every datum that is present once, oldest
        first. `freed` is the nodes in the order of `free`. */
    method Destroy(destroyData: bool) returns (destroyed: seq<T>, ghost freed: seq<QueueNode<T>>)
      requires Valid()
      ensures freed == nodes
      ensures destroyed == if destroyData then Present(contents) else []
    {
      destroyed, freed := [], [];
      var current: QueueNode?<T> := fakeHead;
      ghost var data := [None] + contents;
      while current != null
        invariant |freed| <= |nodes| && freed == nodes[..|freed|]
        invariant current == if |freed| < |nodes| then nodes[|freed|] else null
        invariant destroyed == if destroyData then Present(data[..|freed|]) else []
        decreases |nodes| - |freed|
      {
        var next := current.next;
        assert current.data == data[|freed|];
        PresentSnoc(data[..|freed|], data[|freed|]);
        assert data[..|freed| + 1] == data[..|freed|] + [data[|freed|]];
        if destroyData && current.data.Some? {
          destroyed := destroyed + [current.data.value];
        }
        freed := freed + [current];
        current := next;
      }
      assert data[..|freed|] == data;
      assert Present(data) == Present(contents);
    }
  }

  function IfPresent<T>(datum: Option<T>): seq<T> {
    match datum
    case None => []
    case Some(d) => [d]
  }

  /** The data that are there, in order. */
  function Present<T>(data: seq<Option<T>>): seq<T> {
    if data == [] then [] else IfPresent(data[0]) + Present(data[1..])
  }

  lemma {:induction false} PresentSnoc<T>(data: seq<Option<T>>, last: Option<T>)
    ensures Present(data + [last]) == Present(data) + IfPresent(last)
  {
    if data == [] {
      assert data + [last] == [last];
    } else {
      hide IfPresent;
      assert (data + [last])[1..] == data[1..] + [last];
      PresentSnoc(data[1..], last);
      assert IfPresent(data[0]) + (Present(data[1..]) + IfPresent(last)) == Present(data) + IfPresent(last);
    }
  }
}
