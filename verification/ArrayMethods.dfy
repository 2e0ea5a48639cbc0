/** Array.prototype's in-place moves with holes (array_object.cpp): reverse, shift, unshift, splice. */
module ArrayMethods {
  import opened ArrayStorage

  const TWO31: int := 0x8000_0000
  const TWO32: int := 0x1_0000_0000

  /** An array with nothing left past its end. */
  ghost predicate Usable(a: ArrayInstance)
    reads a, a.storage
  {
    a.Valid() && a.Tidy()
  }

  lemma LengthInRange(a: ArrayInstance)
    requires Usable(a)
    ensures a.length <= MAX_ARRAY_INDEX + 1
  {}

  /** The element at any index, null where there is none. */
  ghost function Peek(a: ArrayInstance, i: nat): (s: Slot)
    requires Usable(a)
    reads a, a.storage
    ensures s != Undefined && (i >= a.length ==> s == Null)
  {
    Lookup(a.Elems(), i)
  }

  ghost function Listing(m: ElementMap, n: nat): (v: seq<Slot>)
    ensures |v| == n && forall i :: 0 <= i < n ==> v[i] == Lookup(m, i)
  {
    seq(n, i requires 0 <= i < n => Lookup(m, i))
  }

  /** The array as a sequence, with null for holes. */
  ghost function View(a: ArrayInstance): (v: seq<Slot>)
    requires Usable(a)
    reads a, a.storage
    ensures |v| == a.length && forall i :: 0 <= i < |v| ==> v[i] == Peek(a, i)
  {
    Listing(a.Elems(), a.length)
  }

  function Presents(s: seq<Slot>): seq<Slot> {
    seq(|s|, i requires 0 <= i < |s| => Present(s[i]))
  }

  lemma LookupSet(m: ElementMap, i: nat, s: Slot)
    ensures Set(m, i, Null) == m - {i}
    ensures forall j: nat :: Lookup(Set(m, i, s), j) == if j == i then Present(s) else Lookup(m, j)
  {}

  /** thisObj->put, or deleteProperty for null. */
  method Write(a: ArrayInstance, i: nat, s: Slot)
    requires Usable(a) && i <= MAX_ARRAY_INDEX
    modifies a, a.storage
    ensures Usable(a) && (a.storage == old(a.storage) || fresh(a.storage))
    ensures old(a.length) <= a.length <= (if i < old(a.length) then old(a.length) else i + 1)
    ensures forall j: nat :: Peek(a, j) == if j == i then Present(s) else old(Peek(a, j))
    ensures forall k :: k in a.sparse ==> k in old(a.sparse) || k == i
  {
    hide Contents, Lookup, Set;
    LookupSet(a.Elems(), i, s);
    if s != Null {
      a.Put(i, s);
    } else {
      a.DeleteProperty(i);
    }
  }

  method ReadAt(a: ArrayInstance, i: nat) returns (s: Slot)
    requires Usable(a) && i <= MAX_ARRAY_INDEX
    ensures Present(s) == Peek(a, i)
  {
    s := a.GetProperty(i);
  }

  /** Setting the length to cut off holes only, or to add some. */
  method SetLength(a: ArrayInstance, n: nat)
    requires Usable(a) && n <= MAX_ARRAY_INDEX + 1 && forall i: nat :: n <= i ==> Peek(a, i) == Null
    requires n < a.length ==> n !in a.sparse
    modifies a, a.storage
    ensures Usable(a) && a.length == n && a.storage == old(a.storage)
    ensures forall j: nat :: Peek(a, j) == old(Peek(a, j))
  {
    hide Contents, Lookup;
    a.SetLength(n);
  }

  // Reverse.

  /** Two elements, present or absent, are exchanged. */
  method Exchange(a: ArrayInstance, k: nat, l: nat)
    requires Usable(a) && k < l < a.length
    modifies a, a.storage
    ensures Usable(a) && a.length == old(a.length) && (a.storage == old(a.storage) || fresh(a.storage))
    ensures forall j: nat :: Peek(a, j) == if j == k then old(Peek(a, l)) else if j == l then old(Peek(a, k)) else old(Peek(a, j))
  {
    hide Usable, Peek;
    LengthInRange(a);
    var obj2 := ReadAt(a, l);
    var obj := ReadAt(a, k);
    Write(a, k, obj2);
    Write(a, l, obj);
  }

  /** The element at an index after the first k exchanges. */
  function Exchanged(v: seq<Slot>, k: nat, i: nat): Slot
    requires i < |v|
  {
    if i < k || |v| - k <= i then v[|v| - 1 - i] else v[i]
  }

  lemma OneMoreExchange(v: seq<Slot>, k: nat)
    requires k < |v| / 2
    ensures Exchanged(v, k + 1, k) == Exchanged(v, k, |v| - 1 - k) && Exchanged(v, k + 1, |v| - 1 - k) == Exchanged(v, k, k)
    ensures forall i: nat :: i < |v| && i != k && i != |v| - 1 - k ==> Exchanged(v, k + 1, i) == Exchanged(v, k, i)
  {}

  method Reverse(a: ArrayInstance)
    requires Usable(a)
    modifies a, a.storage
    ensures Usable(a) && a.length == old(a.length) && (a.storage == old(a.storage) || fresh(a.storage))
    ensures forall i :: 0 <= i < a.length ==> View(a)[i] == old(View(a))[a.length - 1 - i]
  {
    hide Usable, Peek, View, Exchanged;
    ghost var v := View(a);
    var length := a.length;
    var middle := length / 2;
    Exchanges(v);
    for k := 0 to middle
      invariant Usable(a) && a.length == length && (a.storage == old(a.storage) || fresh(a.storage))
      invariant forall i: nat :: i < length ==> Peek(a, i) == Exchanged(v, k, i)
    {
      var lk1 := length - k - 1;
      Exchange(a, k, lk1);
      OneMoreExchange(v, k);
    }
  }

  lemma Exchanges(v: seq<Slot>)
    ensures forall i: nat :: i < |v| ==> Exchanged(v, 0, i) == v[i] && Exchanged(v, |v| / 2, i) == v[|v| - 1 - i]
  {}

  // Shift and unshift.

  /** deleteProperty, which leaves no property behind. */
  method Erase(a: ArrayInstance, i: nat)
    requires Usable(a) && i < a.length
    modifies a, a.storage
    ensures Usable(a) && a.storage == old(a.storage) && a.length == old(a.length) && i !in a.sparse
    ensures forall j: nat :: Peek(a, j) == if j == i then Null else old(Peek(a, j))
  {
    hide Contents, Lookup, Set;
    LookupSet(a.Elems(), i, Null);
    a.DeleteProperty(i);
  }

  /** Removes and returns the first element, moving the others down by one. */
  method Shift(a: ArrayInstance) returns (result: Slot)
    requires Usable(a)
    modifies a, a.storage
    ensures Usable(a) && (a.storage == old(a.storage) || fresh(a.storage))
    ensures old(a.length) == 0 ==> View(a) == [] && result == Null
    ensures old(a.length) > 0 ==> View(a) == old(View(a))[1..] && Present(result) == old(View(a))[0]
  {
    hide Usable, Peek, View;
    ghost var v := View(a);
    LengthInRange(a);
    var length := a.length;
    if length == 0 {
      PeekPastEnd(a);
      SetLength(a, length);
      return Null;
    }
    result := ReadAt(a, 0);
    var k := 1;
    while k < length
      invariant 1 <= k <= length && Usable(a) && a.length == length && (a.storage == old(a.storage) || fresh(a.storage))
      invariant forall i: nat :: i < k - 1 ==> Peek(a, i) == v[i + 1]
      invariant forall i: nat :: k - 1 <= i < length ==> Peek(a, i) == v[i]
    {
      var obj := ReadAt(a, k);
      Write(a, k - 1, obj);
      k := k + 1;
    }
    PeekPastEnd(a);
    Erase(a, length - 1);
    SetLength(a, length - 1);
    assert View(a) == v[1..];
  }

  lemma PeekPastEnd(a: ArrayInstance)
    requires Usable(a)
    ensures forall i: nat :: a.length <= i ==> Peek(a, i) == Null
  {}

  /** Writes a list of values from an index on. */
  method WriteAll(a: ArrayInstance, begin: nat, args: seq<Slot>)
    requires Usable(a) && begin + |args| <= MAX_ARRAY_INDEX + 1
    modifies a, a.storage
    ensures Usable(a) && (a.storage == old(a.storage) || fresh(a.storage))
    ensures old(a.length) <= a.length <= (if begin + |args| < old(a.length) then old(a.length) else begin + |args|)
    ensures forall i: nat :: Peek(a, i) == if begin <= i < begin + |args| then Present(args[i - begin]) else old(Peek(a, i))
    ensures forall k :: k in a.sparse ==> k in old(a.sparse) || begin <= k < begin + |args|
  {
    hide Usable, Peek;
    for k := 0 to |args|
      invariant forall j :: j in a.sparse ==> j in old(a.sparse) || begin <= j < begin + |args|
      invariant Usable(a) && (a.storage == old(a.storage) || fresh(a.storage))
      invariant old(a.length) <= a.length <= (if begin + |args| < old(a.length) then old(a.length) else begin + |args|)
      invariant forall i: nat :: Peek(a, i) == if begin <= i < begin + k then Present(args[i - begin]) else old(Peek(a, i))
    {
      Write(a, begin + k, args[k]);
    }
  }

  /** v with the elements from k on moved up by n. */
  function Opened(v: seq<Slot>, k: nat, n: nat, i: nat): Slot
    requires k <= |v|
  {
    if i < k + n then (if i < |v| then v[i] else Null)
    else if i < |v| + n then v[i - n]
    else Null
  }

  /** Puts the arguments in front. */
  method UnShift(a: ArrayInstance, args: seq<Slot>) returns (result: nat)
    requires Usable(a) && a.length + |args| <= MAX_ARRAY_INDEX + 1
    modifies a, a.storage
    ensures Usable(a) && (a.storage == old(a.storage) || fresh(a.storage))
    ensures result == a.length == old(a.length) + |args|
    ensures View(a) == Presents(args) + old(View(a))
  {
    hide Usable, Peek, View;
    ghost var v := View(a);
    var length, nrArgs := a.length, |args|;
    PeekPastEnd(a);
    var k := length;
    while k > 0
      invariant 0 <= k <= length && Usable(a) && (a.storage == old(a.storage) || fresh(a.storage))
      invariant length <= a.length <= length + nrArgs
      invariant forall i: nat :: Peek(a, i) == Opened(v, k, nrArgs, i)
    {
      var obj := ReadAt(a, k - 1);
      assert Present(obj) == v[k - 1] == Opened(v, k - 1, nrArgs, k + nrArgs - 1);
      Write(a, k + nrArgs - 1, obj);
      k := k - 1;
    }
    WriteAll(a, 0, args);
    result := length + nrArgs;
    SetLength(a, result);
    assert View(a) == Presents(args) + v;
  }

  // Splice.

  /** A 32-bit unsigned value passed as a signed one. */
  function ToInt(u: int): int {
    var r := u % TWO32;
    if r >= TWO31 then r - TWO32 else r
  }

  lemma AsSigned(u: int)
    ensures -TWO31 <= u < TWO31 ==> ToInt(u) == u
    ensures TWO31 <= u < TWO32 ==> ToInt(u) == u - TWO32
  {}

  function MaxInt(x: int, y: int): int {
    if x > y then x else y
  }

  function MinInt(x: int, y: int): int {
    if x < y then x else y
  }

  /** Where to cut, from the first two arguments as unsigned 32-bit values: a first one from 2^31 up counts back from the end. */
  method SpliceBounds(arg0: nat, arg1: nat, length: nat) returns (begin: nat, deleteCount: nat)
    requires arg0 < TWO32 && arg1 < TWO32 && length < TWO31
    ensures begin == if arg0 < TWO31 then MinInt(arg0, length) else MaxInt(length - (TWO32 - arg0), 0)
    ensures begin <= length && deleteCount == MinInt(if arg1 < TWO31 then arg1 else 0, length - begin)
  {
    hide ToInt;
    AsSigned(arg0);
    AsSigned(arg1);
    AsSigned(length);
    var b := ToInt(arg0);
    if b < 0 {
      AsSigned(b + length);
      b := MaxInt(ToInt(b + length), 0);
    } else {
      b := MinInt(b, ToInt(length));
    }
    begin := b;
    AsSigned(length - begin);
    deleteCount := MinInt(MaxInt(ToInt(arg1), 0), ToInt(length - begin));
  }

  /** A new array of the elements from begin on, holes included. */
  method CopyOut(a: ArrayInstance, begin: nat, count: nat) returns (r: ArrayInstance)
    requires Usable(a) && begin + count <= a.length
    ensures fresh(r) && fresh(r.storage) && Usable(r) && View(r) == View(a)[begin..begin + count]
  {
    hide Usable, Peek, View;
    ghost var v := View(a);
    LengthInRange(a);
    r := NewArray();
    for k := 0 to count
      invariant fresh(r) && fresh(r.storage) && Usable(r) && r.length <= k
      invariant forall i: nat :: Peek(r, i) == if i < k then v[begin + i] else Null
    {
      var s := ReadAt(a, begin + k);
      if s != Null {
        Write(r, k, s);
      }
    }
    SetLength(r, count);
    assert View(r) == v[begin..begin + count];
  }

  method NewArray() returns (r: ArrayInstance)
    ensures fresh(r) && fresh(r.storage) && Usable(r) && r.length == 0 && forall i: nat :: Peek(r, i) == Null
  {
    r := new ArrayInstance(0);
  }

  /** v with everything from begin + del on moved to begin + add, as far as element k has been reached. */
  function Closed(v: seq<Slot>, begin: nat, add: nat, del: nat, k: nat, i: nat): Slot
    requires add <= del && k + del <= |v|
  {
    if begin + add <= i < k + add then v[i - add + del] else if i < |v| then v[i] else Null
  }

  /** Fewer elements come in than go out. */
  method CloseGap(a: ArrayInstance, begin: nat, add: nat, del: nat)
    requires Usable(a) && begin + del <= a.length && add < del
    modifies a, a.storage
    ensures Usable(a) && (a.storage == old(a.storage) || fresh(a.storage)) && a.length == old(a.length)
    ensures a.length - del + add !in a.sparse
    ensures forall i: nat :: i < begin + add ==> Peek(a, i) == old(View(a))[i]
    ensures forall i: nat :: begin + add <= i < a.length - del + add ==> Peek(a, i) == old(View(a))[i - add + del]
    ensures forall i: nat :: a.length - del + add <= i ==> Peek(a, i) == Null
  {
    hide Usable, Peek, View;
    ghost var v := View(a);
    PeekPastEnd(a);
    LengthInRange(a);
    var length := a.length;
    var k := begin;
    while k < length - del
      invariant begin <= k <= length - del && Usable(a) && (a.storage == old(a.storage) || fresh(a.storage)) && a.length == length
      invariant forall i: nat :: Peek(a, i) == Closed(v, begin, add, del, k, i)
    {
      var s := ReadAt(a, k + del);
      assert Present(s) == v[k + del] == Closed(v, begin, add, del, k + 1, k + add);
      Write(a, k + add, s);
      k := k + 1;
    }
    k := length;
    while k > length - del + add
      invariant length - del + add <= k <= length && Usable(a) && (a.storage == old(a.storage) || fresh(a.storage)) && a.length == length
      invariant k < length ==> k !in a.sparse
      invariant forall i: nat :: Peek(a, i) == if i < k then Closed(v, begin, add, del, length - del, i) else Null
    {
      Erase(a, k - 1);
      k := k - 1;
    }
  }

  /** v with everything from k on moved from del to add places further. */
  function Widened(v: seq<Slot>, add: nat, del: nat, k: nat, i: nat): Slot
    requires del <= add && k + del <= |v|
  {
    if i < k + add then (if i < |v| then v[i] else Null)
    else if i < |v| - del + add then v[i - add + del]
    else Null
  }

  /** More elements come in than go out. */
  method OpenGap(a: ArrayInstance, begin: nat, add: nat, del: nat)
    requires Usable(a) && begin + del <= a.length && del < add && a.length - del + add <= MAX_ARRAY_INDEX + 1
    modifies a, a.storage
    ensures Usable(a) && (a.storage == old(a.storage) || fresh(a.storage))
    ensures old(a.length) <= a.length <= old(a.length) - del + add
    ensures forall i: nat :: Peek(a, i) == Widened(old(View(a)), add, del, begin, i)
  {
    hide Usable, Peek, View;
    ghost var v := View(a);
    PeekPastEnd(a);
    var length := a.length;
    var k := length - del;
    while k > begin
      invariant begin <= k <= length - del && Usable(a) && (a.storage == old(a.storage) || fresh(a.storage))
      invariant length <= a.length <= length - del + add
      invariant forall i: nat :: Peek(a, i) == Widened(v, add, del, k, i)
    {
      var s := ReadAt(a, k + del - 1);
      assert Present(s) == v[k + del - 1] == Widened(v, add, del, k - 1, k + add - 1);
      Write(a, k + add - 1, s);
      k := k - 1;
    }
  }

  /** The elements after the stretch that goes out are where they will stay; those at the arguments' places do not matter. */
  method MakeRoom(a: ArrayInstance, begin: nat, add: nat, del: nat)
    requires Usable(a) && begin + del <= a.length && a.length - del + add <= MAX_ARRAY_INDEX + 1
    modifies a, a.storage
    ensures Usable(a) && (a.storage == old(a.storage) || fresh(a.storage))
    ensures var n := old(a.length) - del + add;
      && a.length <= (if n < old(a.length) then old(a.length) else n) && (n < a.length ==> n !in a.sparse)
      && (forall i: nat :: i < begin ==> Peek(a, i) == old(View(a))[i])
      && (forall i: nat :: begin + add <= i < n ==> Peek(a, i) == old(View(a))[i - add + del])
      && (forall i: nat :: n <= i ==> Peek(a, i) == Null)
  {
    hide Usable, Peek, View;
    ghost var v := View(a);
    if add < del {
      CloseGap(a, begin, add, del);
    } else if add > del {
      OpenGap(a, begin, add, del);
    } else {
      PeekPastEnd(a);
    }
  }

  /** Replaces del elements from begin on. */
  method ReplaceStretch(a: ArrayInstance, begin: nat, del: nat, args: seq<Slot>)
    requires Usable(a) && begin + del <= a.length && a.length - del + |args| <= MAX_ARRAY_INDEX + 1
    modifies a, a.storage
    ensures Usable(a) && (a.storage == old(a.storage) || fresh(a.storage))
    ensures View(a) == old(View(a))[..begin] + Presents(args) + old(View(a))[begin + del..]
  {
    hide Usable, Peek, View;
    ghost var v := View(a);
    var length, add := a.length, |args|;
    MakeRoom(a, begin, add, del);
    WriteAll(a, begin, args);
    SetLength(a, length - del + add);
    ghost var w := v[..begin] + Presents(args) + v[begin + del..];
    forall i | 0 <= i < |w|
      ensures View(a)[i] == w[i]
    {
      if begin + add <= i {
        assert w[i] == v[i - add + del];
      }
    }
    assert |View(a)| == |w|;
  }

  /** Cuts a stretch out of the array, puts the arguments in its place and returns it as an array. */
  method Splice(a: ArrayInstance, arg0: nat, arg1: nat, args: seq<Slot>) returns (r: ArrayInstance)
    requires Usable(a) && a.length < TWO31 && |args| + 2 < TWO31 && arg0 < TWO32 && arg1 < TWO32
    modifies a, a.storage
    ensures Usable(a) && (a.storage == old(a.storage) || fresh(a.storage)) && fresh(r) && fresh(r.storage) && Usable(r)
    ensures var n := old(a.length);
      var begin := if arg0 < TWO31 then (if arg0 < n then arg0 else n) else if n + arg0 < TWO32 then 0 else n + arg0 - TWO32;
      var del := if arg1 >= TWO31 then 0 else if begin + arg1 < n then arg1 else n - begin;
      && View(r) == old(View(a))[begin..begin + del]
      && View(a) == old(View(a))[..begin] + Presents(args) + old(View(a))[begin + del..]
  {
    hide Usable, Peek, View, Presents;
    var begin, deleteCount := SpliceBounds(arg0, arg1, a.length);
    r := CopyOut(a, begin, deleteCount);
    ReplaceStretch(a, begin, deleteCount, args);
  }
}
