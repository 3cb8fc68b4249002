/** JSON-shaped values as Python holds them after `json.load`, the addresses
    used to reach a value inside them, and the three tree utilities of the
    compressor: the leaf walker (`dict_walker`), the reader
    (`get_nested_dict_recursive`) and the editor (`edit_nested_dict_recursive`). */
module Json {
  import opened Base

  /** A Python dict keeps its keys in insertion order, so an object is an
      ordered list of members. Numbers are abstracted to integers. */
  datatype Value =
    | Obj(members: seq<Member>)
    | Arr(items: seq<Value>)
    | Str(s: string)
    | Num(n: int)
    | Bool(b: bool)
    | Null

  datatype Member = Member(key: string, val: Value)

  /** One element of an address: a dict key or a list index. */
  datatype Step = Key(name: string) | Index(i: nat)

  /** One item yielded by `dict_walker`: the address of a leaf and the leaf
      itself (the Python list with the leaf as its last element). */
  datatype Leaf = Leaf(address: seq<Step>, value: Value)

  /** A value that a Python dict can hold: no object repeats a key. */
  predicate WellFormed(v: Value)
    decreases v
  {
    match v
    case Obj(ms) =>
      && (forall i, j :: 0 <= i < j < |ms| ==> ms[i].key != ms[j].key)
      && (forall i :: 0 <= i < |ms| ==> WellFormed(ms[i].val))
    case Arr(items) => forall i :: 0 <= i < |items| ==> WellFormed(items[i])
    case _ => true
  }

  /** Position of the member stored under `k`. */
  function KeyPos(ms: seq<Member>, k: string): (r: Option<nat>)
    ensures r.Some? ==> r.value < |ms| && ms[r.value].key == k
    ensures r.Some? ==> forall j :: 0 <= j < r.value ==> ms[j].key != k
    ensures r.None? ==> forall j :: 0 <= j < |ms| ==> ms[j].key != k
  {
    if ms == [] then None
    else if ms[0].key == k then Some(0)
    else match KeyPos(ms[1..], k)
      case None => None
      case Some(j) => Some(j + 1)
  }

  /** The first member carrying `k` is the one KeyPos finds. */
  lemma {:induction false} KeyPosFirst(ms: seq<Member>, k: string, i: nat)
    requires i < |ms| && ms[i].key == k
    requires forall j :: 0 <= j < i ==> ms[j].key != k
    ensures KeyPos(ms, k) == Some(i)
  {
    if i > 0 {
      KeyPosFirst(ms[1..], k, i - 1);
    }
  }

  /** KeyPos only looks at the keys. */
  lemma {:induction false} KeyPosSameKeys(ms: seq<Member>, ns: seq<Member>, k: string)
    requires |ms| == |ns|
    requires forall j :: 0 <= j < |ms| ==> ms[j].key == ns[j].key
    ensures KeyPos(ms, k) == KeyPos(ns, k)
  {
    if ms != [] {
      KeyPosSameKeys(ms[1..], ns[1..], k);
    }
  }

  /** Appending a member under another key does not move `k`. */
  lemma {:induction false} KeyPosAppend(ms: seq<Member>, m: Member, k: string)
    requires m.key != k
    ensures KeyPos(ms + [m], k) == KeyPos(ms, k)
  {
    if ms != [] {
      assert (ms + [m])[1..] == ms[1..] + [m];
      KeyPosAppend(ms[1..], m, k);
    } else {
      assert (ms + [m])[1..] == [];
    }
  }

  /** `v[step]` in Python; None stands for the KeyError, IndexError or
      TypeError it raises. Indexing a string yields a one-character string. */
  function Child(v: Value, step: Step): Option<Value>
  {
    match (v, step)
    case (Obj(ms), Key(k)) =>
      (match KeyPos(ms, k) case Some(i) => Some(ms[i].val) case None => None)
    case (Arr(items), Index(i)) => if i < |items| then Some(items[i]) else None
    case (Str(s), Index(i)) => if i < |s| then Some(Str([s[i]])) else None
    case _ => None
  }

  /** `v[step] = x` in Python, on the value level: an existing key keeps its
      place, a new key is appended; a list index must be in range; strings
      and scalars cannot be assigned into. */
  function SetChild(v: Value, step: Step, x: Value): Option<Value>
  {
    match (v, step)
    case (Obj(ms), Key(k)) =>
      (match KeyPos(ms, k)
       case Some(i) => Some(Obj(ms[i := Member(k, x)]))
       case None => Some(Obj(ms + [Member(k, x)])))
    case (Arr(items), Index(i)) => if i < |items| then Some(Arr(items[i := x])) else None
    case _ => None
  }

  /** `get_nested_dict_recursive(v, a)`. An empty address raises IndexError. */
  function Get(v: Value, a: seq<Step>): Option<Value>
    decreases |a|
  {
    if |a| == 0 then None
    else if |a| == 1 then Child(v, a[0])
    else match Child(v, a[0])
      case None => None
      case Some(c) => Get(c, a[1..])
  }

  /** `edit_nested_dict_recursive(v, a, x)`: the tree after the assignment,
      or None when Python raises. */
  function Edit(v: Value, a: seq<Step>, x: Value): Option<Value>
    decreases |a|
  {
    if |a| == 0 then None
    else if |a| == 1 then SetChild(v, a[0], x)
    else match Child(v, a[0])
      case None => None
      case Some(c) =>
        match Edit(c, a[1..], x)
        case None => None
        case Some(c') => SetChild(v, a[0], c')
  }

  /** `dict_walker(v, pre)`: every leaf of `v` in document order. Objects are
      entered, and so are objects met as list elements; any other list element
      (an array nested directly in an array included) is yielded whole. */
  function Walk(v: Value, pre: seq<Step>): seq<Leaf>
    decreases v, 2, 0
  {
    if v.Obj? then WalkMembers(v, 0, pre) else [Leaf(pre, v)]
  }

  function WalkMembers(v: Value, i: nat, pre: seq<Step>): seq<Leaf>
    requires v.Obj? && i <= |v.members|
    decreases v, 1, |v.members| - i
  {
    if i == |v.members| then []
    else
      var m := v.members[i];
      assert m in v.members;
      var here :=
        match m.val
        case Obj(_) => Walk(m.val, pre + [Key(m.key)])
        case Arr(_) => WalkItems(m.val, 0, pre + [Key(m.key)])
        case _ => [Leaf(pre + [Key(m.key)], m.val)];
      here + WalkMembers(v, i + 1, pre)
  }

  function WalkItems(a: Value, j: nat, base: seq<Step>): seq<Leaf>
    requires a.Arr? && j <= |a.items|
    decreases a, 1, |a.items| - j
  {
    if j == |a.items| then []
    else
      assert a.items[j] in a.items;
      Walk(a.items[j], base + [Index(j)]) + WalkItems(a, j + 1, base)
  }

  // ---------------------------------------------------------------------
  // Walk/read agreement
  // ---------------------------------------------------------------------

  /** What every leaf yielded below `pre` satisfies: its address extends
      `pre`, reading `v` at the rest of the address gives the leaf back, a
      leaf is never an object, and an array leaf sits at a list index. */
  ghost predicate LeafOf(v: Value, pre: seq<Step>, e: Leaf)
  {
    && |pre| < |e.address|
    && e.address[..|pre|] == pre
    && Get(v, e.address[|pre|..]) == Some(e.value)
    && !e.value.Obj?
    && (e.value.Arr? ==> e.address[|e.address| - 1].Index?)
  }

  lemma {:induction false} WalkSound(v: Value, pre: seq<Step>)
    requires WellFormed(v)
    ensures v.Obj? ==> forall e | e in Walk(v, pre) :: LeafOf(v, pre, e)
    ensures !v.Obj? ==> Walk(v, pre) == [Leaf(pre, v)]
    decreases v, 2, 0
  {
    if v.Obj? {
      WalkMembersSound(v, 0, pre);
    }
  }

  lemma {:induction false} WalkMembersSound(v: Value, i: nat, pre: seq<Step>)
    requires v.Obj? && i <= |v.members| && WellFormed(v)
    ensures forall e | e in WalkMembers(v, i, pre) :: LeafOf(v, pre, e)
    decreases v, 1, |v.members| - i
  {
    if i < |v.members| {
      var m := v.members[i];
      assert m in v.members;
      assert WellFormed(m.val);
      var k := pre + [Key(m.key)];
      KeyPosFirst(v.members, m.key, i);
      assert Child(v, Key(m.key)) == Some(m.val);
      WalkMembersSound(v, i + 1, pre);
      match m.val
      case Obj(_) =>
        WalkSound(m.val, k);
        forall e | e in Walk(m.val, k) ensures LeafOf(v, pre, e) {
          LeafOfParent(v, pre, Key(m.key), m.val, e);
        }
      case Arr(_) =>
        WalkItemsSound(m.val, 0, k);
        forall e | e in WalkItems(m.val, 0, k) ensures LeafOf(v, pre, e) {
          LeafOfParent(v, pre, Key(m.key), m.val, e);
        }
      case _ =>
        var e := Leaf(k, m.val);
        assert e.address[|pre|..] == [Key(m.key)];
    }
  }

  /** A leaf below a child is a leaf below its parent. */
  lemma LeafOfParent(v: Value, pre: seq<Step>, s: Step, child: Value, e: Leaf)
    requires Child(v, s) == Some(child) && LeafOf(child, pre + [s], e)
    ensures LeafOf(v, pre, e)
  {
    var k := pre + [s];
    var rel := e.address[|pre|..];
    assert e.address[..|k|] == k;
    assert e.address[..|pre|] == e.address[..|k|][..|pre|];
    assert rel[0] == s;
    assert rel[1..] == e.address[|k|..];
  }

  lemma {:induction false} WalkItemsSound(a: Value, j: nat, base: seq<Step>)
    requires a.Arr? && j <= |a.items| && WellFormed(a)
    ensures forall e | e in WalkItems(a, j, base) :: LeafOf(a, base, e)
    decreases a, 1, |a.items| - j
  {
    if j < |a.items| {
      var x := a.items[j];
      assert x in a.items;
      assert WellFormed(x);
      var k := base + [Index(j)];
      assert Child(a, Index(j)) == Some(x);
      WalkItemsSound(a, j + 1, base);
      WalkSound(x, k);
      if x.Obj? {
        forall e | e in Walk(x, k) ensures LeafOf(a, base, e) {
          LeafOfParent(a, base, Index(j), x, e);
        }
      } else {
        assert k[|base|..] == [Index(j)];
      }
    }
  }

  /** The agreement between `dict_walker` and `get_nested_dict_recursive`:
      for a dict, every yielded address reads back the yielded leaf; the leaf
      is never a dict, and an array is yielded only as an element of a list. */
  lemma WalkThenGet(v: Value)
    requires v.Obj? && WellFormed(v)
    ensures forall e | e in Walk(v, []) ::
      && e.address != []
      && Get(v, e.address) == Some(e.value)
      && !e.value.Obj?
      && (e.value.Arr? ==> e.address[|e.address| - 1].Index?)
  {
    WalkSound(v, []);
    forall e | e in Walk(v, []) ensures e.address[0..] == e.address {
    }
  }

  /** The two edge shapes of the walker: an empty dict has no leaves, and a
      list element that is itself a list is not entered but yielded whole, at
      the address of the element. */
  lemma WalkEdgeShapes(a: Value, j: nat, base: seq<Step>)
    requires a.Arr? && j < |a.items| && a.items[j].Arr?
    ensures Walk(Obj([]), base) == []
    ensures Leaf(base + [Index(j)], a.items[j]) in WalkItems(a, 0, base)
  {
    WalkItemsHolds(a, 0, j, base);
  }

  /** The leaves of element `j` appear among those of the items from `i` on. */
  lemma {:induction false} WalkItemsHolds(a: Value, i: nat, j: nat, base: seq<Step>)
    requires a.Arr? && i <= j < |a.items|
    ensures forall e | e in Walk(a.items[j], base + [Index(j)]) :: e in WalkItems(a, i, base)
    decreases j - i
  {
    if i < j {
      WalkItemsHolds(a, i + 1, j, base);
    }
  }

  /** An address along which the walker descends: every value it passes
      through is a dict, or a list held directly by a dict. */
  ghost predicate Entered(v: Value, a: seq<Step>)
    decreases |a|
  {
    |a| <= 1 ||
      match Child(v, a[0])
      case None => false
      case Some(c) => (c.Obj? || (c.Arr? && v.Obj?)) && Entered(c, a[1..])
  }

  /** The leaves of the members from `j` on are among those from `i` on. */
  lemma {:induction false} WalkMembersTail(v: Value, i: nat, j: nat, pre: seq<Step>)
    requires v.Obj? && i <= j <= |v.members|
    ensures forall e | e in WalkMembers(v, j, pre) :: e in WalkMembers(v, i, pre)
    decreases j - i
  {
    if i < j {
      WalkMembersTail(v, i + 1, j, pre);
    }
  }

  /** `dict_walker` reaches every leaf: a scalar read from a dict along an
      address the walker descends is yielded, at that address. */
  lemma {:induction false} WalkComplete(v: Value, pre: seq<Step>, a: seq<Step>, x: Value)
    requires v.Obj? && Entered(v, a) && Get(v, a) == Some(x)
    requires !x.Obj? && !x.Arr?
    ensures Leaf(pre + a, x) in Walk(v, pre)
    decreases |a|
  {
    var k := a[0].name;
    var i := KeyPos(v.members, k).value;
    var m := v.members[i];
    var c := m.val;
    var pk := pre + [Key(k)];
    WalkMembersTail(v, 0, i, pre);
    assert forall e | e in WalkMembers(v, i, pre) :: e in Walk(v, pre);
    if |a| == 1 {
      assert pre + a == pk;
      assert Leaf(pk, x) in WalkMembers(v, i, pre);
    } else if c.Obj? {
      WalkComplete(c, pk, a[1..], x);
      assert pk + a[1..] == pre + a;
      assert forall e | e in Walk(c, pk) :: e in WalkMembers(v, i, pre);
    } else {
      var j := a[1].i;
      var item := c.items[j];
      var pj := pk + [Index(j)];
      WalkItemsHolds(c, 0, j, pk);
      if |a| == 2 {
        assert pre + a == pj;
        assert Walk(item, pj) == [Leaf(pj, item)];
      } else {
        WalkComplete(item, pj, a[2..], x);
        assert a[1..][1..] == a[2..];
        assert pj + a[2..] == pre + a;
      }
      assert forall e | e in WalkItems(c, 0, pk) :: e in WalkMembers(v, i, pre);
    }
  }

  // ---------------------------------------------------------------------
  // Edit then read
  // ---------------------------------------------------------------------

  lemma SetChildThenChild(v: Value, s: Step, x: Value)
    requires SetChild(v, s, x).Some?
    ensures Child(SetChild(v, s, x).value, s) == Some(x)
  {
    if v.Obj? && s.Key? {
      var w := SetChild(v, s, x).value;
      match KeyPos(v.members, s.name)
      case Some(i) =>
        KeyPosFirst(w.members, s.name, i);
      case None =>
        KeyPosFirst(w.members, s.name, |v.members|);
    }
  }

  /** Assigning under one step leaves every other step reading as before. */
  lemma SetChildFrame(v: Value, s: Step, x: Value, t: Step)
    requires SetChild(v, s, x).Some? && s != t
    ensures Child(SetChild(v, s, x).value, t) == Child(v, t)
  {
    if v.Obj? && s.Key? && t.Key? {
      var ms := v.members;
      var w := SetChild(v, s, x).value;
      match KeyPos(ms, s.name)
      case Some(i) =>
        KeyPosSameKeys(ms, w.members, t.name);
        if KeyPos(ms, t.name).Some? {
          assert w.members[KeyPos(ms, t.name).value] == ms[KeyPos(ms, t.name).value];
        }
      case None =>
        KeyPosAppend(ms, Member(s.name, x), t.name);
    }
  }

  /** Two addresses that start alike are prefix-related exactly when their
      tails are; a one-step address is a prefix of any address sharing it. */
  lemma PrefixTail(a: seq<Step>, b: seq<Step>)
    requires |a| > 0 && |b| > 0 && a[0] == b[0]
    ensures a <= b <==> a[1..] <= b[1..]
    ensures |a| == 1 ==> a <= b
  {
    assert a == [a[0]] + a[1..];
    assert b == [b[0]] + b[1..];
  }

  lemma {:induction false} EditThenGet(v: Value, a: seq<Step>, x: Value)
    requires Edit(v, a, x).Some?
    ensures Get(Edit(v, a, x).value, a) == Some(x)
    decreases |a|
  {
    if |a| == 1 {
      SetChildThenChild(v, a[0], x);
    } else {
      var c := Child(v, a[0]).value;
      var c' := Edit(c, a[1..], x).value;
      EditThenGet(c, a[1..], x);
      SetChildThenChild(v, a[0], c');
    }
  }

  /** After `edit_nested_dict_recursive(v, a, x)`, every address that neither
      extends `a` nor is a prefix of `a` reads the same as before. */
  lemma {:induction false} EditFrame(v: Value, a: seq<Step>, x: Value, b: seq<Step>)
    requires Edit(v, a, x).Some?
    requires !(a <= b) && !(b <= a)
    ensures Get(Edit(v, a, x).value, b) == Get(v, b)
    decreases |a|
  {
    var w := Edit(v, a, x).value;
    assert |b| > 0 && |a| > 0;
    if a[0] != b[0] {
      if |a| == 1 {
        SetChildFrame(v, a[0], x, b[0]);
      } else {
        var c := Child(v, a[0]).value;
        SetChildFrame(v, a[0], Edit(c, a[1..], x).value, b[0]);
      }
    } else {
      PrefixTail(a, b);
      PrefixTail(b, a);
      assert |a| > 1 && |b| > 1;
      var c := Child(v, a[0]).value;
      var c' := Edit(c, a[1..], x).value;
      SetChildThenChild(v, a[0], c');
      EditFrame(c, a[1..], x, b[1..]);
    }
  }
}
