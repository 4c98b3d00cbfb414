/** The repository's persistent singly linked list (`List.java`): a sealed
    interface with the records `Cons(head, tail)` and `Empty`.  `Elements()`
    is the abstract value every operation is specified against. */
module Lists {
  import opened Outcomes

  /** `Empty.get` throws `ArrayIndexOutOfBoundsException` with the index it
      was left with after walking the cells. */
  datatype ListError = IndexOutOfBounds(index: int)

  datatype List<T> = Empty | Cons(head: T, tail: List<T>) {

    /** The elements from head to tail. */
    function Elements(): seq<T>
      decreases this
    {
      match this
      case Empty => []
      case Cons(h, t) => [h] + t.Elements()
    }

    /** The number of `Cons` cells. */
    function Length(): (n: nat)
      ensures n == |Elements()|
      decreases this
    {
      match this
      case Empty => 0
      case Cons(_, t) => 1 + t.Length()
    }

    /** `prepend(e)`: a new cell in front of this list. */
    function Prepend(e: T): (r: List<T>)
      ensures r.Elements() == [e] + Elements()
      ensures r.Length() == Length() + 1
    {
      Cons(e, this)
    }

    /** `append(e)`: copies the cells and puts `e` in a new last cell. */
    function Append(e: T): (r: List<T>)
      ensures r.Elements() == Elements() + [e]
      ensures r.Length() == Length() + 1
      decreases this
    {
      match this
      case Empty => Cons(e, Empty)
      case Cons(h, t) => Cons(h, t.Append(e))
    }

    /** `map(fn)`: the head is mapped before the tail. */
    function Map<U>(f: T -> U): (r: List<U>)
      ensures r.Length() == Length()
      ensures forall i | 0 <= i < Length() :: r.Elements()[i] == f(Elements()[i])
      decreases this
    {
      match this
      case Empty => Empty
      case Cons(h, t) => Cons(f(h), t.Map(f))
    }

    /** `get(i)`: walks `i` cells; an index outside the list, negative ones
        included, reaches `Empty.get`, which throws. */
    function Get(i: int): (r: Outcome<T, ListError>)
      ensures r.Ok? <==> 0 <= i < Length()
      ensures r.Ok? ==> r.value == Elements()[i]
      ensures r.Err? ==> r.error == IndexOutOfBounds(i - Length())
      decreases this
    {
      match this
      case Empty => Err(IndexOutOfBounds(i))
      case Cons(h, t) => if i == 0 then Ok(h) else t.Get(i - 1)
    }

    /** `size()`: counts the cells with a cursor. */
    method Size() returns (n: nat)
      ensures n == Length()
    {
      var current := this;
      n := 0;
      while current.Cons?
        invariant n + current.Length() == Length()
        decreases current
      {
        current := current.tail;
        n := n + 1;
      }
    }

    /** `forEach(consumer)`: returns the elements handed to the consumer, in
        the order it receives them. */
    method ForEach() returns (visited: seq<T>)
      ensures visited == Elements()
    {
      var current := this;
      visited := [];
      while current.Cons?
        invariant visited + current.Elements() == Elements()
        decreases current
      {
        visited := visited + [current.head];
        current := current.tail;
      }
    }

    /** The first `n` cells (all of them when the list is shorter); contracts
        use it to speak of the pairs handled before position `n`. */
    ghost function Prefix(n: nat): (r: List<T>)
      ensures n <= Length() ==> r.Elements() == Elements()[..n]
      decreases this
    {
      if n == 0 || Empty? then Empty else Cons(head, tail.Prefix(n - 1))
    }

    /** `zip(that)`: pairs elements position by position and stops at the
        end of the shorter list. */
    function Zip<S>(that: List<S>): (r: List<(T, S)>)
      ensures r.Length() == if Length() <= that.Length() then Length() else that.Length()
      ensures forall i | 0 <= i < r.Length() :: r.Elements()[i] == (Elements()[i], that.Elements()[i])
      decreases this
    {
      if Cons? && that.Cons? then Cons((head, that.head), tail.Zip(that.tail)) else Empty
    }
  }

  /** A list is determined by its elements. */
  lemma {:induction false} ElementsInjective<T>(a: List<T>, b: List<T>)
    requires a.Elements() == b.Elements()
    ensures a == b
    decreases a
  {
    if a.Cons? {
      assert b.Cons? && a.head == b.Elements()[0] == b.head;
      assert a.tail.Elements() == a.Elements()[1..] == b.tail.Elements();
      ElementsInjective(a.tail, b.tail);
    }
  }

  /** Appending a cell leaves every prefix up to the old length alone. */
  lemma PrefixAppend<T>(l: List<T>, e: T)
    ensures forall n: nat | n <= l.Length() :: l.Append(e).Prefix(n) == l.Prefix(n)
    ensures l.Append(e).Prefix(l.Length()) == l
  {
    forall n: nat | n <= l.Length()
      ensures l.Append(e).Prefix(n) == l.Prefix(n)
    {
      ElementsInjective(l.Append(e).Prefix(n), l.Prefix(n));
    }
    ElementsInjective(l.Append(e).Prefix(l.Length()), l);
  }

  /** Zipping against one more element pairs it with the next element of
      the longer list. */
  lemma {:induction false} ZipAppend<T, S>(a: List<T>, b: List<S>, e: S)
    requires b.Length() < a.Length()
    ensures a.Zip(b.Append(e)) == a.Zip(b).Append((a.Elements()[b.Length()], e))
    decreases b
  {
    if b.Cons? {
      ZipAppend(a.tail, b.tail, e);
      assert a.Elements()[b.Length()] == a.tail.Elements()[b.tail.Length()];
    }
  }

  /** `List.of(values)`: builds the list back to front, from the last value
      to the first. */
  method Of<T>(values: seq<T>) returns (result: List<T>)
    ensures result.Elements() == values
  {
    result := Empty;
    var i := |values|;
    while i > 0
      invariant 0 <= i <= |values|
      invariant result.Elements() == values[i..]
    {
      i := i - 1;
      result := Cons(values[i], result);
    }
  }
}
