/** JSON values as the converters see them once a document has been parsed,
    and the JavaScript object operations the converters perform on them.

    An object is an ordered association list: JavaScript enumerates an
    object's own string keys in insertion order, assigning to an existing key
    keeps its position, and assigning to a new key appends it. */
module JsonValue {
  import Text

  datatype Option<+T> = None | Some(value: T)

  /** The outcome of an operation that can throw a JavaScript `TypeError`
      (reading a property of `null`, or converting a null-prototype object to
      a string). */
  datatype Result<+T> = Ok(value: T) | TypeError

  /** A parsed JSON/YAML value. Numbers are opaque: no operation here does
      arithmetic on them. */
  datatype Json =
    | Null
    | Bool(b: bool)
    | Num(n: real)
    | Str(s: string)
    | Arr(items: seq<Json>)
    | Obj(fields: seq<Field>)

  type Field = (string, Json)

  function Keys(fs: seq<Field>): (ks: seq<string>)
    ensures |ks| == |fs|
  {
    if fs == [] then [] else [fs[0].0] + Keys(fs[1..])
  }

  lemma {:induction false} KeysConcat(a: seq<Field>, b: seq<Field>)
    ensures Keys(a + b) == Keys(a) + Keys(b)
    decreases |a|
  {
    if a == [] {
      assert a + b == b;
    } else {
      assert (a + b)[1..] == a[1..] + b;
      KeysConcat(a[1..], b);
    }
  }

  lemma {:induction false} KeysAt(fs: seq<Field>, i: nat)
    requires i < |fs|
    ensures Keys(fs)[i] == fs[i].0
    decreases i
  {
    if i > 0 {
      KeysAt(fs[1..], i - 1);
    }
  }

  predicate Distinct<T(==)>(s: seq<T>) {
    forall i, j :: 0 <= i < j < |s| ==> s[i] != s[j]
  }

  /** What `Object.entries` guarantees of any JavaScript object. */
  predicate UniqueKeys(fs: seq<Field>) {
    Distinct(Keys(fs))
  }

  lemma KeyHasEntry(fs: seq<Field>, k: string)
    requires k in Keys(fs)
    ensures exists e :: e in fs && e.0 == k
  {
    var i :| 0 <= i < |Keys(fs)| && Keys(fs)[i] == k;
    KeysAt(fs, i);
    assert fs[i] in fs;
  }

  lemma EntryKeyInKeys(fs: seq<Field>, e: Field)
    requires e in fs
    ensures e.0 in Keys(fs)
  {
    var i :| 0 <= i < |fs| && fs[i] == e;
    KeysAt(fs, i);
  }

  lemma UniqueKeysTail(fs: seq<Field>)
    requires fs != []
    ensures UniqueKeys(fs) <==> fs[0].0 !in Keys(fs[1..]) && UniqueKeys(fs[1..])
  {
    var ks, t := Keys(fs), Keys(fs[1..]);
    assert ks == [fs[0].0] + t;
    if Distinct(ks) {
      forall j | 0 <= j < |t|
        ensures t[j] != fs[0].0
      {
        assert t[j] == ks[j + 1] && ks[0] == fs[0].0;
        assert ks[0] != ks[j + 1];
      }
      forall i, j | 0 <= i < j < |t|
        ensures t[i] != t[j]
      {
        assert t[i] == ks[i + 1] && t[j] == ks[j + 1];
      }
    }
    if fs[0].0 !in t && Distinct(t) {
      forall i, j | 0 <= i < j < |ks|
        ensures ks[i] != ks[j]
      {
        assert ks[j] == t[j - 1];
        if i > 0 {
          assert ks[i] == t[i - 1];
        }
      }
    }
  }

  /** `a` is obtained from `b` by deleting elements: order is kept. */
  predicate IsSubsequence<T(==)>(a: seq<T>, b: seq<T>)
    decreases |b|
  {
    && |a| <= |b|
    && (|| a == []
        || (a[0] == b[0] && IsSubsequence(a[1..], b[1..]))
        || IsSubsequence(a, b[1..]))
  }

  lemma {:induction false} SubsequenceMembers<T>(a: seq<T>, b: seq<T>)
    requires IsSubsequence(a, b)
    ensures forall x :: x in a ==> x in b
    decreases |b|
  {
    if a != [] {
      if a[0] == b[0] && IsSubsequence(a[1..], b[1..]) {
        SubsequenceMembers(a[1..], b[1..]);
        assert forall x :: x in a ==> x == a[0] || x in a[1..];
      } else {
        SubsequenceMembers(a, b[1..]);
      }
    }
  }

  lemma {:induction false} SubsequenceRefl<T>(a: seq<T>)
    ensures IsSubsequence(a, a)
    decreases |a|
  {
    if a != [] {
      SubsequenceRefl(a[1..]);
    }
  }

  lemma {:induction false} SubsequenceTrans<T>(a: seq<T>, b: seq<T>, c: seq<T>)
    requires IsSubsequence(a, b) && IsSubsequence(b, c)
    ensures IsSubsequence(a, c)
    decreases |c|
  {
    if a != [] {
      if IsSubsequence(b, c[1..]) {
        SubsequenceTrans(a, b, c[1..]);
      } else if a[0] == b[0] && IsSubsequence(a[1..], b[1..]) {
        SubsequenceTrans(a[1..], b[1..], c[1..]);
      } else {
        SubsequenceTrans(a, b[1..], c[1..]);
      }
    }
  }

  /** A common prefix keeps a subsequence one. */
  lemma {:induction false} SubsequencePrefix<T>(p: seq<T>, a: seq<T>, b: seq<T>)
    requires IsSubsequence(a, b)
    ensures IsSubsequence(p + a, p + b)
    decreases |p|
  {
    if p == [] {
      assert p + a == a && p + b == b;
    } else {
      SubsequencePrefix(p[1..], a, b);
      assert (p + a)[1..] == p[1..] + a;
      assert (p + b)[1..] == p[1..] + b;
      assert (p + a)[0] == p[0] == (p + b)[0];
      assert |p + a| <= |p + b|;
    }
  }

  /** Deleting one element gives a subsequence. */
  lemma SubsequenceDrop<T>(p: seq<T>, x: T, q: seq<T>)
    ensures IsSubsequence(p + q, p + [x] + q)
  {
    SubsequenceRefl(q);
    assert ([x] + q)[1..] == q;
    assert IsSubsequence(q, [x] + q);
    SubsequencePrefix(p, q, [x] + q);
    assert p + ([x] + q) == p + [x] + q;
  }

  /** `o[k]` for an own property: the value of the first entry with key `k`. */
  function Lookup(fs: seq<Field>, k: string): (r: Option<Json>)
    ensures r.Some? <==> k in Keys(fs)
    ensures r.Some? ==> (k, r.value) in fs
  {
    if fs == [] then None
    else if fs[0].0 == k then Some(fs[0].1)
    else Lookup(fs[1..], k)
  }

  /** With distinct keys, every entry is the one its key finds. */
  lemma {:induction false} LookupOfUniqueEntry(fs: seq<Field>, e: Field)
    requires UniqueKeys(fs) && e in fs
    ensures Lookup(fs, e.0) == Some(e.1)
  {
    UniqueKeysTail(fs);
    if fs[0] != e {
      assert e in fs[1..];
      EntryKeyInKeys(fs[1..], e);
      LookupOfUniqueEntry(fs[1..], e);
    }
  }

  /** `o[k] = v`: overwrite in place when `k` is present, append otherwise. */
  function Set(fs: seq<Field>, k: string, v: Json): (r: seq<Field>)
    ensures k in Keys(fs) ==> Keys(r) == Keys(fs)
    ensures k !in Keys(fs) ==> r == fs + [(k, v)]
    ensures Lookup(r, k) == Some(v)
    ensures forall k' :: k' != k ==> Lookup(r, k') == Lookup(fs, k')
  {
    if fs == [] then [(k, v)]
    else if fs[0].0 == k then [(k, v)] + fs[1..]
    else [fs[0]] + Set(fs[1..], k, v)
  }

  lemma {:induction false} SetEntries(fs: seq<Field>, k: string, v: Json)
    ensures forall x :: x in Set(fs, k, v) ==> x in fs || x == (k, v)
  {
    if fs != [] && fs[0].0 != k {
      SetEntries(fs[1..], k, v);
    }
  }

  lemma SetKeepsUniqueKeys(fs: seq<Field>, k: string, v: Json)
    requires UniqueKeys(fs)
    ensures UniqueKeys(Set(fs, k, v))
  {
    if k !in Keys(fs) {
      KeysConcat(fs, [(k, v)]);
    }
  }

  /** `delete o[k]`: the entry goes, the others keep their order. */
  function Delete(fs: seq<Field>, k: string): (r: seq<Field>)
    ensures k !in Keys(r)
    ensures forall k' :: k' != k ==> Lookup(r, k') == Lookup(fs, k')
    ensures k !in Keys(fs) ==> r == fs
    ensures IsSubsequence(r, fs)
  {
    if fs == [] then []
    else if fs[0].0 == k then Delete(fs[1..], k)
    else [fs[0]] + Delete(fs[1..], k)
  }

  /** The value carried by the last entry with key `k`. */
  function LookupLast(fs: seq<Field>, k: string): (r: Option<Json>)
    ensures r.Some? <==> k in Keys(fs)
    ensures r.Some? ==> (k, r.value) in fs
  {
    if fs == [] then None
    else match LookupLast(fs[1..], k)
      case Some(v) => Some(v)
      case None => if fs[0].0 == k then Some(fs[0].1) else None
  }

  lemma {:induction false} LookupLastOfUniqueKeys(fs: seq<Field>, k: string)
    requires UniqueKeys(fs)
    ensures LookupLast(fs, k) == Lookup(fs, k)
  {
    if fs != [] {
      UniqueKeysTail(fs);
      LookupLastOfUniqueKeys(fs[1..], k);
    }
  }

  /** `Object.assign(target, source)` where `src` lists the source's own
      enumerable entries: one `Set` per entry, in order, so the last entry
      for a key wins and keys the source lacks keep the target's value. */
  function Assign(target: seq<Field>, src: seq<Field>): (r: seq<Field>)
    ensures forall k :: Lookup(r, k) == if k in Keys(src) then LookupLast(src, k) else Lookup(target, k)
    decreases |src|
  {
    if src == [] then target
    else Assign(Set(target, src[0].0, src[0].1), src[1..])
  }

  lemma {:induction false} AssignEntries(target: seq<Field>, src: seq<Field>)
    ensures forall x :: x in Assign(target, src) ==> x in target || x in src
    decreases |src|
  {
    if src != [] {
      var t' := Set(target, src[0].0, src[0].1);
      SetEntries(target, src[0].0, src[0].1);
      AssignEntries(t', src[1..]);
    }
  }

  /** `Object.assign` keeps the target's keys in place and appends the new ones. */
  lemma {:induction false} AssignKeys(target: seq<Field>, src: seq<Field>)
    ensures Keys(target) <= Keys(Assign(target, src))
    ensures forall k :: k in Keys(Assign(target, src)) <==> k in Keys(target) || k in Keys(src)
    decreases |src|
  {
    if src != [] {
      var t' := Set(target, src[0].0, src[0].1);
      KeysConcat(target, [src[0]]);
      assert Keys(target) <= Keys(t');
      AssignKeys(t', src[1..]);
      assert Keys(src) == [src[0].0] + Keys(src[1..]);
    }
  }

  /** `Object.assign` leaves the keys in the order of their first appearance
      among the target's keys followed by the source's. */
  lemma {:induction false} AssignKeyOrder(target: seq<Field>, src: seq<Field>)
    ensures IsSubsequence(Keys(Assign(target, src)), Keys(target) + Keys(src))
    decreases |src|
  {
    if src == [] {
      SubsequenceRefl(Keys(target));
      assert Keys(target) + Keys(src) == Keys(target);
    } else {
      var t' := Set(target, src[0].0, src[0].1);
      assert Assign(target, src) == Assign(t', src[1..]);
      AssignKeyOrder(t', src[1..]);
      SetKeyOrder(target, src);
      SubsequenceTrans(Keys(Assign(t', src[1..])), Keys(t') + Keys(src[1..]), Keys(target) + Keys(src));
    }
  }

  lemma SetAppendsKey(fs: seq<Field>, k: string, v: Json)
    requires k !in Keys(fs)
    ensures Keys(Set(fs, k, v)) == Keys(fs) + [k]
  {
    KeysConcat(fs, [(k, v)]);
  }

  /** The first assignment of `Object.assign`, for the key order. */
  lemma SetKeyOrder(target: seq<Field>, src: seq<Field>)
    requires src != []
    ensures IsSubsequence(Keys(Set(target, src[0].0, src[0].1)) + Keys(src[1..]), Keys(target) + Keys(src))
  {
    var k := src[0].0;
    var tk := Keys(Set(target, k, src[0].1));
    var ks := Keys(src[1..]);
    assert Keys(src) == [k] + ks;
    assert Keys(target) + Keys(src) == Keys(target) + [k] + ks;
    if k in Keys(target) {
      assert tk == Keys(target);
      SubsequenceDrop(Keys(target), k, ks);
    } else {
      SetAppendsKey(target, k, src[0].1);
      assert tk + ks == Keys(target) + [k] + ks;
      SubsequenceRefl(tk + ks);
    }
  }

  lemma {:induction false} AssignKeepsUniqueKeys(target: seq<Field>, src: seq<Field>)
    requires UniqueKeys(target)
    ensures UniqueKeys(Assign(target, src))
    decreases |src|
  {
    if src != [] {
      SetKeepsUniqueKeys(target, src[0].0, src[0].1);
      AssignKeepsUniqueKeys(Set(target, src[0].0, src[0].1), src[1..]);
    }
  }

  lemma AppendHead<T>(a: seq<T>, b: seq<T>)
    requires b != []
    ensures a + b == (a + [b[0]]) + b[1..]
  {
  }

  lemma {:induction false} AssignFresh(target: seq<Field>, src: seq<Field>)
    requires UniqueKeys(src)
    requires forall k :: k in Keys(src) ==> k !in Keys(target)
    ensures Assign(target, src) == target + src
    decreases |src|
  {
    if src != [] {
      UniqueKeysTail(src);
      assert Keys(src) == [src[0].0] + Keys(src[1..]);
      var t' := Set(target, src[0].0, src[0].1);
      assert t' == target + [src[0]];
      KeysConcat(target, [src[0]]);
      forall k | k in Keys(src[1..])
        ensures k !in Keys(t')
      {
        assert k in Keys(src);
      }
      AssignFresh(t', src[1..]);
      AppendHead(target, src);
    }
  }

  /** No key of `fs` is in `top`, and no key in `nested` appears in any
      object below it reached through object values or through the items of
      an array value; an array held by an array is not looked into. */
  predicate AvoidsKeys(fs: seq<Field>, top: seq<string>, nested: seq<string>)
    decreases fs
  {
    fs == [] ||
    (assert fs[0].1 < fs[0];
     fs[0].0 !in top && ValueAvoidsKeys(fs[0].1, nested) && AvoidsKeys(fs[1..], top, nested))
  }

  predicate ValueAvoidsKeys(v: Json, nested: seq<string>)
    decreases v
  {
    match v
    case Obj(gs) => AvoidsKeys(gs, nested, nested)
    case Arr(items) => ItemsAvoidKeys(items, nested)
    case _ => true
  }

  predicate ItemsAvoidKeys(items: seq<Json>, nested: seq<string>)
    decreases items
  {
    items == [] || (ItemAvoidsKeys(items[0], nested) && ItemsAvoidKeys(items[1..], nested))
  }

  predicate ItemAvoidsKeys(item: Json, nested: seq<string>)
    decreases item
  {
    item.Obj? ==> AvoidsKeys(item.fields, nested, nested)
  }

  /** The deep condition holds entry by entry. */
  lemma {:induction false} AvoidsKeysEntries(fs: seq<Field>, top: seq<string>, nested: seq<string>)
    ensures AvoidsKeys(fs, top, nested) <==> forall e :: e in fs ==> e.0 !in top && ValueAvoidsKeys(e.1, nested)
  {
    if fs != [] {
      AvoidsKeysEntries(fs[1..], top, nested);
      assert forall e :: e in fs <==> e == fs[0] || e in fs[1..];
    }
  }

  /** The own enumerable entries `Object.entries` / `Object.assign` see: an
      object's fields, an array's or a string's indices, nothing for the
      other primitives and for `null`. */
  function OwnEntries(j: Json): seq<Field> {
    match j
    case Obj(fs) => fs
    case Arr(items) => ItemEntries(items, 0)
    case Str(s) => CharEntries(s, 0)
    case _ => []
  }

  /** An array's entries from index `from` on, named by their decimal index. */
  function ItemEntries(items: seq<Json>, from: nat): (r: seq<Field>)
    requires from <= |items|
    ensures |r| == |items| - from
    ensures forall i :: 0 <= i < |r| ==> r[i] == (Text.NatToString(from + i), items[from + i])
    decreases |items| - from
  {
    if from == |items| then [] else [(Text.NatToString(from), items[from])] + ItemEntries(items, from + 1)
  }

  /** A string's entries from index `from` on: one-character strings named by
      their decimal index. */
  function CharEntries(s: string, from: nat): (r: seq<Field>)
    requires from <= |s|
    ensures |r| == |s| - from
    ensures forall i :: 0 <= i < |r| ==> r[i] == (Text.NatToString(from + i), Str([s[from + i]]))
    decreases |s| - from
  {
    if from == |s| then [] else [(Text.NatToString(from), Str([s[from]]))] + CharEntries(s, from + 1)
  }

  /** `Object.assign(Object.create(null), j)` */
  function ShallowCopy(j: Json): seq<Field> {
    Assign([], OwnEntries(j))
  }

  lemma ShallowCopyOfObject(fs: seq<Field>)
    requires UniqueKeys(fs)
    ensures ShallowCopy(Obj(fs)) == fs
  {
    AssignFresh([], fs);
  }

  /** An array's or a string's entries are named by distinct decimal
      indices, so copying them keeps every one, in index order. */
  lemma IndexEntries(j: Json)
    requires j.Arr? || j.Str?
    ensures UniqueKeys(OwnEntries(j))
    ensures ShallowCopy(j) == OwnEntries(j)
  {
    var fs := OwnEntries(j);
    forall a, b | 0 <= a < b < |Keys(fs)|
      ensures Keys(fs)[a] != Keys(fs)[b]
    {
      KeysAt(fs, a);
      KeysAt(fs, b);
      Text.NatToStringInjective(a, b);
    }
    AssignFresh([], fs);
  }

  /** JavaScript truthiness. */
  predicate Truthy(j: Json) {
    match j
    case Null => false
    case Bool(b) => b
    case Num(n) => n != 0.0
    case Str(s) => s != ""
    case _ => true
  }
}
