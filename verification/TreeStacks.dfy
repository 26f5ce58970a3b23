/** The doubling array stack under the document iterator. */
module TreeStacks {
  datatype NodeEntry = NodeEntry(order: nat, orderParent: nat, depth: nat)

  datatype Popped = Nothing | Entry(value: NodeEntry)

  const INIT_SIZE: nat := 20
  const MULTIPLIER: nat := 2

  class TreeStack {
    var data: array<NodeEntry>
    var top: nat

    ghost predicate Valid()
      reads this
    {
      top <= data.Length && data.Length > 0
    }

    /** The stacked entries, bottom first. */
    ghost function Contents(): seq<NodeEntry>
      requires Valid()
      reads this, data
    {
      data[..top]
    }

    constructor ()
      ensures Valid() && fresh(data) && data.Length == 20 && Contents() == []
    {
      data := new NodeEntry[INIT_SIZE](_ => NodeEntry(0, 0, 0));
      top := 0;
    }

    /** Doubles the buffer and keeps what is in it. */
    method Resize()
      requires Valid()
      modifies this`data
      ensures Valid() && fresh(data) && data.Length == 2 * old(data.Length)
      ensures Contents() == old(Contents())
    {
      var was := data;
      var bigger := new NodeEntry[MULTIPLIER * was.Length](_ => NodeEntry(0, 0, 0));
      forall i | 0 <= i < was.Length {
        bigger[i] := was[i];
      }
      data := bigger;
    }

    method Push(value: NodeEntry)
      requires Valid()
      modifies this, data
      ensures Valid() && Contents() == old(Contents()) + [value]
      ensures if old(top) < old(data.Length) then data == old(data)
              else fresh(data) && data.Length == 2 * old(data.Length)
    {
      if top >= data.Length {
        Resize();
      }
      data[top] := value;
      top := top + 1;
    }

    method Pop() returns (r: Popped)
      requires Valid()
      modifies this`top
      ensures Valid()
      ensures if old(Contents()) == [] then r == Nothing && Contents() == []
              else r.Entry? && old(Contents()) == Contents() + [r.value]
    {
      if top == 0 {
        return Nothing;
      }
      top := top - 1;
      return Entry(data[top]);
    }

    method Peek() returns (r: Popped)
      requires Valid()
      ensures r == if Contents() == [] then Nothing else Entry(Contents()[|Contents()| - 1])
    {
      if top <= 0 {
        return Nothing;
      }
      return Entry(data[top - 1]);
    }
  }
}
