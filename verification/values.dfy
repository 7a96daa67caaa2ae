/** Parsed JSON values, as the dashboard stores them in local storage and
    reads them from imported files. Objects keep their members in insertion
    order, as JavaScript objects do for non-index keys. */
module Values {
  import opened Seqs
  import opened Text

  datatype Value =
    | Null
    | Bool(b: bool)
    | Num(n: int)
    | Str(s: string)
    | Arr(items: seq<Value>)
    | Obj(members: seq<Member>)

  datatype Member = Member(key: string, value: Value)

  /** The outcome of `JSON.parse` on a text. */
  datatype Parsed = Malformed | Parsed(value: Value)

  /** The property names every plain object inherits from
      `Object.prototype` (section 20.1.3 of ECMA-262): reading one of them
      on an object that lacks it as an own key finds a function or, for
      `__proto__`, the prototype itself, never `undefined`. */
  const ObjectPrototypeNames: set<string> := {
    "constructor", "hasOwnProperty", "isPrototypeOf", "propertyIsEnumerable",
    "toLocaleString", "toString", "valueOf", "__proto__",
    "__defineGetter__", "__defineSetter__", "__lookupGetter__", "__lookupSetter__"
  }

  /** JavaScript truthiness (`NaN` is not modelled). */
  predicate Truthy(v: Value) {
    match v
    case Null => false
    case Bool(b) => b
    case Num(n) => n != 0
    case Str(s) => s != ""
    case Arr(_) => true
    case Obj(_) => true
  }

  function Keys(ms: seq<Member>): (ks: seq<string>)
    ensures |ks| == |ms|
    ensures forall i :: 0 <= i < |ms| ==> ks[i] == ms[i].key
  {
    seq(|ms|, i requires 0 <= i < |ms| => ms[i].key)
  }

  /** `obj[k]`: the value of the last member named `k` (a parsed object with
      a repeated key keeps the last one). */
  function Get(ms: seq<Member>, k: string): Option<Value> {
    if ms == [] then None
    else if ms[|ms| - 1].key == k then Some(ms[|ms| - 1].value)
    else Get(ms[..|ms| - 1], k)
  }

  /** A key reads a value exactly when some member carries it. */
  lemma {:induction false} GetSome(ms: seq<Member>, k: string)
    ensures Get(ms, k).Some? <==> k in Keys(ms)
  {
    if ms != [] && ms[|ms| - 1].key != k {
      assert Keys(ms) == Keys(ms[..|ms| - 1]) + [ms[|ms| - 1].key];
      GetSome(ms[..|ms| - 1], k);
    }
  }

  /** In an object without repeated keys, each member's key reads its value. */
  lemma {:induction false} GetDistinct(ms: seq<Member>, i: nat)
    requires NoDuplicates(Keys(ms))
    requires i < |ms|
    ensures Get(ms, ms[i].key) == Some(ms[i].value)
  {
    var n := |ms|;
    if i < n - 1 {
      assert Keys(ms)[i] != Keys(ms)[n - 1];
      assert Keys(ms[..n - 1]) == Keys(ms)[..n - 1];
      GetDistinct(ms[..n - 1], i);
    }
  }

  /** `obj[k] = v`: every member named `k` takes the value `v`; a new key is
      appended at the end. */
  function Put(ms: seq<Member>, k: string, v: Value): (r: seq<Member>)
    ensures Get(r, k) == Some(v)
    ensures forall k' :: k' != k ==> Get(r, k') == Get(ms, k')
    ensures k in Keys(ms) ==> Keys(r) == Keys(ms)
    ensures k !in Keys(ms) ==> Keys(r) == Keys(ms) + [k]
  {
    if k in Keys(ms) then
      var r := seq(|ms|, i requires 0 <= i < |ms| => if ms[i].key == k then Member(k, v) else ms[i]);
      PutExisting(ms, k, v, r);
      r
    else
      var r := ms + [Member(k, v)];
      assert r[..|r| - 1] == ms;
      r
  }

  lemma {:induction false} PutExisting(ms: seq<Member>, k: string, v: Value, r: seq<Member>)
    requires k in Keys(ms)
    requires |r| == |ms|
    requires forall i :: 0 <= i < |ms| ==> r[i] == if ms[i].key == k then Member(k, v) else ms[i]
    ensures Get(r, k) == Some(v)
    ensures forall k' :: k' != k ==> Get(r, k') == Get(ms, k')
    ensures Keys(r) == Keys(ms)
  {
    var n := |ms|;
    var ms', r' := ms[..n - 1], r[..n - 1];
    assert Keys(ms) == Keys(ms') + [ms[n - 1].key];
    if ms[n - 1].key != k {
      PutExisting(ms', k, v, r');
    } else if k in Keys(ms') {
      PutExisting(ms', k, v, r');
    } else {
      PutAbsent(ms', k, v, r');
    }
  }

  lemma {:induction false} PutAbsent(ms: seq<Member>, k: string, v: Value, r: seq<Member>)
    requires k !in Keys(ms)
    requires |r| == |ms|
    requires forall i :: 0 <= i < |ms| ==> r[i] == if ms[i].key == k then Member(k, v) else ms[i]
    ensures r == ms
  {
    forall i | 0 <= i < |ms| ensures r[i] == ms[i] {
      assert Keys(ms)[i] == ms[i].key;
    }
  }

  /** Assigning a new key appends a member. */
  lemma PutAppends(ms: seq<Member>, k: string, v: Value)
    requires k !in Keys(ms)
    ensures Put(ms, k, v) == ms + [Member(k, v)]
  {
  }

  /** `{...a, ...b}`: the members of `b` written over `a`, in order. */
  function Merge(a: seq<Member>, b: seq<Member>): (r: seq<Member>)
    ensures forall k :: k in Keys(b) ==> Get(r, k) == Get(b, k)
    ensures forall k :: k !in Keys(b) ==> Get(r, k) == Get(a, k)
  {
    if b == [] then a
    else
      var n := |b|;
      assert Keys(b) == Keys(b[..n - 1]) + [b[n - 1].key];
      Put(Merge(a, b[..n - 1]), b[n - 1].key, b[n - 1].value)
  }

  /** The own enumerable properties of `v`, as spread syntax `{...v}` sees
      them: an object's members, the elements of an array or the characters
      of a string under their decimal index, nothing for other values. */
  function Spread(v: Value): seq<Member> {
    match v
    case Obj(ms) => ms
    case Arr(items) => seq(|items|, i requires 0 <= i < |items| => Member(NatToString(i), items[i]))
    case Str(s) => seq(|s|, i requires 0 <= i < |s| => Member(NatToString(i), Str([s[i]])))
    case _ => []
  }

  /** String conversion as `Array.prototype.join` and template literals
      perform it (inside a join, `null` becomes the empty string). */
  function Display(v: Value): string
    decreases v
  {
    match v
    case Null => ""
    case Bool(b) => if b then "true" else "false"
    case Num(n) => IntToString(n)
    case Str(s) => s
    case Arr(items) => JoinWith(seq(|items|, i requires 0 <= i < |items| => Display(items[i])), ",")
    case Obj(_) => "[object Object]"
  }

  /** `parts.join(sep)`. */
  function JoinWith(parts: seq<string>, sep: string): string {
    if parts == [] then ""
    else if |parts| == 1 then parts[0]
    else JoinWith(parts[..|parts| - 1], sep) + sep + parts[|parts| - 1]
  }
}
