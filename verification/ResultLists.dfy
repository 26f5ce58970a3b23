/** The ordered list of documents that searches fill and deleteDocument walks backwards. */
module ResultLists {
  import opened DocIterators

  class ResultNode {
    const document: Doc
    var next: ResultNode?
    var prev: ResultNode?

    constructor (document: Doc)
      ensures this.document == document && next == null && prev == null
    {
      this.document := document;
      next, prev := null, null;
    }
  }

  class ResultList {
    var head: ResultNode?
    var tail: ResultNode?
    var size: nat
    ghost var nodes: seq<ResultNode>
    ghost var docs: seq<Doc>
    ghost var Repr: set<object>

    ghost predicate Valid()
      reads this, Repr
      ensures Valid() ==> this in Repr
    {
      && this in Repr
      && (forall n :: n in nodes ==> n in Repr)
      && size == |nodes| == |docs|
      && (nodes == [] ==> head == null && tail == null)
      && (nodes != [] ==> head == nodes[0] && tail == nodes[|nodes| - 1])
      && (forall i :: 0 <= i < |nodes| ==> nodes[i].document == docs[i])
      && (forall i {:trigger nodes[i].prev} :: 0 <= i < |nodes| ==>
          nodes[i].prev == if i == 0 then null else nodes[i - 1])
      && (forall i {:trigger nodes[i].next} :: 0 <= i < |nodes| ==>
          nodes[i].next == if i == |nodes| - 1 then null else nodes[i + 1])
      && (forall i, j :: 0 <= i < j < |nodes| ==> nodes[i] != nodes[j])
    }

    constructor ()
      ensures Valid() && fresh(Repr) && docs == []
    {
      head, tail, size := null, null, 0;
      nodes, docs, Repr := [], [], {this};
    }

    method InsertResult(document: Doc)
      requires Valid()
      modifies Repr
      ensures Valid() && fresh(Repr - old(Repr))
      ensures docs == old(docs) + [document]
    {
      var newResult := new ResultNode(document);
      size := size + 1;
      if head == null {
        head := newResult;
        tail := newResult;
        head.prev := null;
      } else {
        newResult.prev := tail;
        tail.next := newResult;
        tail := newResult;
      }
      nodes, docs, Repr := nodes + [newResult], docs + [document], Repr + {newResult};
    }
  }
}
