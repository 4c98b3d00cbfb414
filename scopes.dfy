/** `Env`, the frame chain both interpreters use.  In the Java code `Env` is
    an immutable record of a mutable `HashMap` and a parent `Env` (null for
    the global frame); here the record is a datatype and the `HashMap` a
    class `Table` whose contents `declare` updates in place.  The module is
    generic in the value type, since the two interpreters store different
    kinds of value. */
module Scopes {
  import opened Lists
  import opened Options

  /** A frame's `HashMap<String, Value>`. */
  class Table<V> {
    var entries: map<string, V>

    /** `new HashMap<>()`. */
    constructor ()
      ensures entries == map[]
    {
      entries := map[];
    }
  }

  datatype Env<V> = Env(vars: Table<V>, parent: Option<Env<V>>) {

    /** The tables of this frame and of all enclosing frames, nearest first. */
    function Frames(): (fs: seq<Table<V>>)
      ensures |fs| >= 1 && fs[0] == vars
      decreases this
    {
      if parent.None? then [vars] else [vars] + parent.value.Frames()
    }

    function Chain(): set<Table<V>> {
      set t | t in Frames()
    }

    /** `lookupNoThrow`: the binding in the nearest frame that has one;
        `None` where the Java code returns null. */
    function Lookup(x: string): (r: Option<V>)
      reads Chain()
      ensures x in vars.entries ==> r == Some(vars.entries[x])
      ensures parent.None? ==> (r.Some? <==> x in vars.entries)
      decreases this
    {
      if x in vars.entries then Some(vars.entries[x])
      else if parent.None? then None
      else parent.value.Lookup(x)
    }

    /** `Lookup` agrees with a reading of the frames from nearest to
        farthest: it fails exactly when no frame names `x`, and otherwise
        returns the value in the first frame that does. */
    lemma {:induction false} LookupNearest(x: string)
      ensures Lookup(x).None? <==> forall t | t in Frames() :: x !in t.entries
      ensures Lookup(x).Some? ==>
        exists i | 0 <= i < |Frames()| ::
          x in Frames()[i].entries && Lookup(x).value == Frames()[i].entries[x] &&
          forall j | 0 <= j < i :: x !in Frames()[j].entries
      decreases this
    {
      if x !in vars.entries && parent.Some? {
        var up := parent.value;
        up.LookupNearest(x);
        var fs := Frames();
        assert fs == [vars] + up.Frames();
        if Lookup(x).Some? {
          var i :| 0 <= i < |up.Frames()| &&
            x in up.Frames()[i].entries && Lookup(x).value == up.Frames()[i].entries[x] &&
            forall j | 0 <= j < i :: x !in up.Frames()[j].entries;
          assert fs[i + 1] == up.Frames()[i];
          assert forall j | 0 < j < i + 1 :: fs[j] == up.Frames()[j - 1];
        }
      }
    }

    /** The chain holds only tables that already exist. */
    lemma {:induction false} ChainAllocated()
      ensures forall t | t in Chain() :: allocated(t)
      decreases this
    {
      if parent.Some? {
        parent.value.ChainAllocated();
        assert Frames() == [vars] + parent.value.Frames();
        assert Chain() == {vars} + parent.value.Chain();
      }
    }

    /** No table occurs twice in the chain.  `makeChild` always allocates a
        new table, so every chain the interpreters build has this shape. */
    predicate Separate()
      decreases this
    {
      parent.Some? ==> vars !in parent.value.Chain() && parent.value.Separate()
    }

    /** `makeChild()`: a fresh empty frame under this one.  Nothing existing
        changes, and the child sees exactly what this frame sees. */
    method MakeChild() returns (child: Env<V>)
      ensures fresh(child.vars) && child.vars.entries == map[] && child.parent == Some(this)
      ensures child.Chain() == {child.vars} + Chain()
      ensures forall x :: child.Lookup(x) == Lookup(x)
      ensures Separate() ==> child.Separate()
    {
      ChainAllocated();
      ghost var above := Chain();
      var table := new Table();
      assert table !in above;
      child := Env(table, Some(this));
      assert child.Frames() == [table] + Frames();
    }

    /** A heap change that leaves every table's binding of `y` as it was
        leaves the lookup of `y` as it was, whether or not a table occurs
        twice in the chain. */
    twostate lemma {:induction false} LookupUnchanged(y: string)
      requires forall t | t in Chain() :: old(allocated(t))
      requires forall t | t in Chain() ::
        (y in t.entries <==> y in old(t.entries)) && (y in t.entries ==> t.entries[y] == old(t.entries[y]))
      ensures Lookup(y) == old(Lookup(y))
      decreases this
    {
      if parent.Some? {
        assert Frames() == [vars] + parent.value.Frames();
        assert Chain() == {vars} + parent.value.Chain();
        parent.value.LookupUnchanged(y);
      }
    }

    /** `declare(variable, val)`: writes this frame's table only, so no
        other name's lookup changes. */
    method Declare(x: string, v: V)
      modifies vars
      ensures vars.entries == old(vars.entries)[x := v]
      ensures Lookup(x) == Some(v)
      ensures forall y | y != x :: Lookup(y) == old(Lookup(y))
    {
      ChainAllocated();
      vars.entries := vars.entries[x := v];
      forall y | y != x
        ensures Lookup(y) == old(Lookup(y))
      {
        LookupUnchanged(y);
      }
    }

    /** `pairs.forEach(p -> env.declare(p.fst(), p.snd()))`. */
    method DeclareEach(pairs: List<(string, V)>)
      modifies vars
      ensures vars.entries == Declared(old(vars.entries), pairs)
    {
      var current := pairs;
      while current.Cons?
        invariant Declared(vars.entries, current) == Declared(old(vars.entries), pairs)
        decreases current
      {
        Declare(current.head.0, current.head.1);
        current := current.tail;
      }
    }
  }

  /** `new Env(new HashMap<>(), null)`. */
  method Root<V>() returns (env: Env<V>)
    ensures fresh(env.vars) && env.vars.entries == map[] && env.parent == None
  {
    var table := new Table();
    env := Env(table, None);
  }

  /** The map a frame holds after `declare`-ing `pairs` from left to right
      into `m`: `HashMap.put`, so a later pair overwrites an earlier one. */
  function Declared<V>(m: map<string, V>, pairs: List<(string, V)>): (r: map<string, V>)
    ensures forall y :: y in r <==> y in m || y in Keys(pairs)
    decreases pairs
  {
    match pairs
    case Empty => m
    case Cons(p, rest) => Declared(m[p.0 := p.1], rest)
  }

  /** Declaring one more pair after `pairs` is one more `put`. */
  lemma {:induction false} DeclaredAppend<V>(m: map<string, V>, pairs: List<(string, V)>, p: (string, V))
    ensures Declared(m, pairs.Append(p)) == Declared(m, pairs)[p.0 := p.1]
    decreases pairs
  {
    if pairs.Cons? {
      DeclaredAppend(m[pairs.head.0 := pairs.head.1], pairs.tail, p);
    }
  }

  /** The names declared by `pairs`. */
  function Keys<V>(pairs: List<(string, V)>): set<string>
    decreases pairs
  {
    match pairs
    case Empty => {}
    case Cons(p, rest) => {p.0} + Keys(rest)
  }

  lemma {:induction false} KeysAt<V>(pairs: List<(string, V)>, y: string)
    ensures y in Keys(pairs) <==> exists i | 0 <= i < pairs.Length() :: pairs.Elements()[i].0 == y
    decreases pairs
  {
    if pairs.Cons? {
      KeysAt(pairs.tail, y);
      assert pairs.Elements() == [pairs.head] + pairs.tail.Elements();
      assert pairs.Elements()[0] == pairs.head;
      if y in Keys(pairs.tail) {
        var i :| 0 <= i < pairs.tail.Length() && pairs.tail.Elements()[i].0 == y;
        assert pairs.Elements()[i + 1].0 == y;
      }
      if exists i | 0 <= i < pairs.Length() :: pairs.Elements()[i].0 == y {
        var i :| 0 <= i < pairs.Length() && pairs.Elements()[i].0 == y;
        if i > 0 {
          assert pairs.tail.Elements()[i - 1].0 == y;
        }
      }
    }
  }

  /** When the names of `pairs` are pairwise distinct, each is bound to its
      own value and every other name keeps what `m` had. */
  lemma {:induction false} DeclaredDistinct<V>(m: map<string, V>, pairs: List<(string, V)>)
    requires forall i, j | 0 <= i < j < pairs.Length() :: pairs.Elements()[i].0 != pairs.Elements()[j].0
    ensures forall i | 0 <= i < pairs.Length() :: pairs.Elements()[i].0 in Declared(m, pairs)
    ensures forall i | 0 <= i < pairs.Length() :: Declared(m, pairs)[pairs.Elements()[i].0] == pairs.Elements()[i].1
    ensures forall y | y in m && y !in Keys(pairs) :: Declared(m, pairs)[y] == m[y]
    decreases pairs
  {
    if pairs.Cons? {
      var p := pairs.head;
      var rest := pairs.tail;
      assert forall i | 0 < i < pairs.Length() :: pairs.Elements()[i] == rest.Elements()[i - 1];
      forall i, j | 0 <= i < j < rest.Length() ensures rest.Elements()[i].0 != rest.Elements()[j].0 {
        assert pairs.Elements()[i + 1].0 != pairs.Elements()[j + 1].0;
      }
      DeclaredDistinct(m[p.0 := p.1], rest);
      forall i | 0 <= i < pairs.Length() ensures pairs.Elements()[i].0 in Keys(pairs) {
        KeysAt(pairs, pairs.Elements()[i].0);
      }
      assert p.0 !in Keys(rest) by {
        KeysAt(rest, p.0);
        forall i | 0 <= i < rest.Length() ensures rest.Elements()[i].0 != p.0 {
          assert pairs.Elements()[0].0 != pairs.Elements()[i + 1].0;
        }
      }
    }
  }
}
