/** `Object.assign` over JSON values (section 20.1.2.1 of ECMA-262): each
    argument after the first is converted with ToObject, and its own
    enumerable properties are copied in order onto the first with [[Set]]. */
module ObjectAssign {
  import opened Wrappers
  import opened AssocList
  import opened Json

  /** The decimal digit character for `d`. */
  function DigitChar(d: nat): (c: char)
    requires d < 10
  {
    ('0' as int + d) as char
  }

  /** The property name of array index `n`: its decimal form without leading
      zeros, as ToString of a number gives it. */
  function IndexKey(n: nat): (k: string)
    decreases n
  {
    if n < 10 then [DigitChar(n)] else IndexKey(n / 10) + [DigitChar(n % 10)]
  }

  /** Distinct indices have distinct property names. */
  lemma {:induction false} IndexKeyInjective(a: nat, b: nat)
    requires IndexKey(a) == IndexKey(b)
    ensures a == b
    decreases a
  {
    var ka, kb := IndexKey(a), IndexKey(b);
    if a < 10 {
      assert kb[0] == ka[0];
    } else {
      assert b >= 10;
      assert ka[|ka| - 1] == kb[|kb| - 1];
      assert a % 10 == b % 10;
      assert ka[..|ka| - 1] == IndexKey(a / 10);
      assert kb[..|kb| - 1] == IndexKey(b / 10);
      IndexKeyInjective(a / 10, b / 10);
    }
  }

  /** The index properties of an array-like value whose first element has
      index `start`: element `i` is held under IndexKey(start + i). */
  function IndexedFrom(items: seq<Value>, start: nat): (p: Props)
    ensures |p| == |items|
    ensures forall e | e in p :: e.1 in items
    decreases |items|
  {
    if |items| == 0 then []
    else [(IndexKey(start), items[0])] + IndexedFrom(items[1..], start + 1)
  }

  /** Only the indices `start` up to `start + |items|` occur as names. */
  lemma {:induction false} IndexedFromRange(items: seq<Value>, start: nat, j: nat)
    requires IndexKey(j) in Keys(IndexedFrom(items, start))
    ensures start <= j < start + |items|
    decreases |items|
  {
    var p := IndexedFrom(items, start);
    var tail := IndexedFrom(items[1..], start + 1);
    KeysCons(p[0], tail);
    assert p[1..] == tail;
    if IndexKey(j) == IndexKey(start) {
      IndexKeyInjective(j, start);
    } else {
      IndexedFromRange(items[1..], start + 1, j);
    }
  }

  /** No index name occurs twice. */
  lemma {:induction false} IndexedFromUnique(items: seq<Value>, start: nat)
    ensures UniqueKeys(IndexedFrom(items, start))
    decreases |items|
  {
    if |items| > 0 {
      var p := IndexedFrom(items, start);
      var tail := IndexedFrom(items[1..], start + 1);
      assert p[1..] == tail;
      KeysCons(p[0], tail);
      if IndexKey(start) in Keys(tail) {
        IndexedFromRange(items[1..], start + 1, start);
      }
      IndexedFromUnique(items[1..], start + 1);
    }
  }

  /** Entry `i` is element `i` of `items` under the name of index
      `start + i`; with the length fixed, this determines the whole list. */
  lemma {:induction false} IndexedFromAt(items: seq<Value>, start: nat, i: nat)
    requires i < |items|
    ensures IndexedFrom(items, start)[i] == (IndexKey(start + i), items[i])
    decreases |items|
  {
    if i > 0 {
      var p := IndexedFrom(items, start);
      assert p[1..] == IndexedFrom(items[1..], start + 1);
      IndexedFromAt(items[1..], start + 1, i - 1);
    }
  }

  /** Looking up the name of index `start + i` finds element `i`. */
  lemma IndexedFromGet(items: seq<Value>, start: nat, i: nat)
    requires i < |items|
    ensures Get(IndexedFrom(items, start), IndexKey(start + i)) == Some(items[i])
  {
    var p := IndexedFrom(items, start);
    IndexedFromAt(items, start, i);
    IndexedFromUnique(items, start);
    GetEntry(p, p[i]);
  }

  /** The characters of a string as one-character strings, which is what a
      String object exposes under its index properties. */
  function Chars(s: string): (cs: seq<Value>)
    ensures |cs| == |s|
    ensures forall x | x in cs :: x.Str? && |x.s| == 1
    decreases |s|
  {
    if |s| == 0 then [] else [Str([s[0]])] + Chars(s[1..])
  }

  /** Element `i` of Chars(s) is the one-character string `s[i]`. */
  lemma {:induction false} CharsAt(s: string, i: nat)
    requires i < |s|
    ensures Chars(s)[i] == Str([s[i]])
    decreases |s|
  {
    if i > 0 {
      CharsAt(s[1..], i - 1);
    }
  }

  /** The own enumerable properties `Object.assign` copies from one argument.
      `null` is skipped, booleans and numbers become wrappers with no
      enumerable properties, strings and arrays expose their indices, and an
      object exposes its members in creation order. */
  function OwnProps(v: Value): (p: Props) {
    match v
    case Obj(m) => m
    case Arr(items) => IndexedFrom(items, 0)
    case Str(s) => IndexedFrom(Chars(s), 0)
    case _ => []
  }

  /** A value `JSON.parse` can return contributes distinct names, each with a
      well-formed value. */
  lemma OwnPropsWellFormed(v: Value)
    requires WellFormed(v)
    ensures UniqueKeys(OwnProps(v)) && AllWellFormed(OwnProps(v))
  {
    match v
    case Obj(m) =>
    case Arr(items) => IndexedFromUnique(items, 0);
    case Str(s) => IndexedFromUnique(Chars(s), 0);
    case _ =>
  }

  /** `Object.assign(into, sources...)` on the property list of `into`. */
  function Assign(into: Props, sources: seq<Value>): (r: Props)
    decreases |sources|
  {
    if |sources| == 0 then into
    else Assign(CopyProps(into, OwnProps(sources[0])), sources[1..])
  }

}
