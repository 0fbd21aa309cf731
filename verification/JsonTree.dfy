/** The tree of util/json.c: objects, arrays, pairs and values that point down to their contents and
    up to what holds them.  Levels are found by following the pointers upward, and printing prints
    every line at the level found that way.
 */
module JsonTree {
  import opened Basics
  import opened JsonText
  import opened JsonRoundTrip
  import opened JsonLines

  datatype Content = Integer(number: int) | Str(escaped: string) | Obj(obj: JsonObject) | Arr(arr: JsonArray)

  /** `parent_type` is JSON_PARENT_TYPE_PAIR exactly when `parentPair` is set.  `text` is what the
      escaped string was made from. */
  class JsonValue {
    var content: Content
    var parentPair: JsonPair?
    var parentArray: JsonArray?
    ghost var text: string

    constructor (content: Content, ghost text: string)
      ensures this.content == content && this.text == text
      ensures parentPair == null && parentArray == null
    {
      this.content, this.text := content, text;
      parentPair, parentArray := null, null;
    }
  }

  class JsonPair {
    var name: string
    var value: JsonValue
    var parent: JsonObject?

    constructor (name: string, value: JsonValue)
      ensures this.name == name && this.value == value && parent == null
    {
      this.name, this.value, parent := name, value, null;
    }
  }

  class JsonObject {
    var pairs: seq<JsonPair>
    var parent: JsonValue?

    constructor ()
      ensures pairs == [] && parent == null
    {
      pairs, parent := [], null;
    }
  }

  class JsonArray {
    var values: seq<JsonValue>
    var parent: JsonValue?

    constructor ()
      ensures values == [] && parent == null
    {
      values, parent := [], null;
    }
  }

  /** An object or an array: the things that enclose others. */
  datatype Node = O(o: JsonObject) | A(a: JsonArray)

  /** What the add functions are given: JSON_TYPE_INTEGER, JSON_TYPE_UINT and whole JSON_TYPE_FLOAT
      are all `Int`; `None` is the null string. */
  datatype Argument =
    | Int(number: int)
    | String(str: Option<string>)
    | Child(node: Node)

  // ----- escaping -----

  function CountEscapes(str: string): nat {
    if str == [] then 0 else (if NeedsEscape(str[0]) then 1 else 0) + CountEscapes(str[1..])
  }

  lemma {:induction false} EscapeLength(str: string)
    ensures |Escape(str)| == |str| + CountEscapes(str)
  {
    if str != [] {
      EscapeLength(str[1..]);
    }
  }

  /** Character by character, a backslash goes before a quote or a backslash and before nothing else. */
  lemma {:induction false} EscapeIs(str: string, more: string)
    ensures Escape(str + more) == Escape(str) + Escape(more)
    ensures |str| == 1 ==> Escape(str) == if str[0] == '"' || str[0] == '\\' then ['\\', str[0]] else str
    ensures str == "" ==> Escape(str) == ""
  {
    if str == [] {
      assert str + more == more;
    } else {
      assert (str + more)[1..] == str[1..] + more;
      EscapeIs(str[1..], more);
      assert |str| == 1 ==> str[1..] == "";
    }
  }

  /** One character of either pass. */
  lemma EscapeStep(str: string, s: nat)
    requires s < |str|
    ensures Escape(str[s..]) == EscapeOne(str[s]) + Escape(str[s + 1..])
    ensures CountEscapes(str[s..])
         == (if NeedsEscape(str[s]) then 1 else 0) + CountEscapes(str[s + 1..])
  {
    assert str[s..][1..] == str[s + 1..];
  }

  /** strdup_escape: one pass to count, one to copy into a buffer of exactly that size. */
  method StrdupEscape(str: string) returns (ret: array?<char>)
    ensures ret == null <==> str == ""
    ensures ret != null ==> fresh(ret) && ret[..] == Escape(str)
  {
    hide Escape, CountEscapes;
    if |str| == 0 {
      return null;
    }
    EscapeLength(str);
    EndOfString(str);
    var escapes, input := 0, 0;
    while input < |str|
      invariant 0 <= input <= |str|
      invariant escapes + CountEscapes(str[input..]) == CountEscapes(str)
    {
      EscapeStep(str, input);
      if NeedsEscape(str[input]) {
        escapes := escapes + 1;
      }
      input := input + 1;
    }
    ret := new char[|str| + escapes];
    var p, s := 0, 0;
    ghost var done := "";
    while s < |str|
      invariant 0 <= s <= |str| && p == |done|
      invariant done + Escape(str[s..]) == Escape(str)
      invariant p <= ret.Length == |Escape(str)| && ret[..p] == done
    {
      EscapeStep(str, s);
      var c := str[s];
      assert done + EscapeOne(c) + Escape(str[s + 1..]) == Escape(str);
      assert p + |EscapeOne(c)| <= ret.Length;
      if NeedsEscape(c) {
        ret[p] := '\\';
        p := p + 1;
      }
      ret[p] := c;
      p := p + 1;
      done := done + EscapeOne(c);
      s := s + 1;
    }
    assert done == Escape(str);
  }

  lemma EndOfString(str: string)
    ensures str[0..] == str && Escape(str[|str|..]) == "" && CountEscapes(str[|str|..]) == 0
  {
  }

  // ----- the forest -----

  /** All nodes made so far.  Only ghost state: for each object or array the root of its tree and
      the number of objects and arrays that enclose it, and a bound on those numbers. */
  class JsonForest {
    ghost var objects: set<JsonObject>
    ghost var arrays: set<JsonArray>
    ghost var pairs: set<JsonPair>
    ghost var values: set<JsonValue>
    ghost var root: map<Node, Node>
    ghost var depth: map<Node, nat>
    ghost var height: nat

    ghost predicate Has(n: Node)
      reads this
    {
      match n
      case O(o) => o in objects
      case A(a) => a in arrays
    }

    /** The object or array that directly holds a value. */
    ghost predicate Held(v: JsonValue)
      reads this, pairs, v
    {
      if v.parentPair != null then
        v.parentPair in pairs && v.parentPair.parent != null && v.parentPair.parent in objects
      else
        v.parentArray != null && v.parentArray in arrays
    }

    ghost function Holder(v: JsonValue): Node
      requires Held(v)
      reads this, pairs, v
    {
      if v.parentPair != null then O(v.parentPair.parent) else A(v.parentArray)
    }

    /** The value that points to a node, and what that value holds. */
    ghost function Parent(n: Node): JsonValue?
      requires Has(n)
      reads this, objects, arrays
    {
      match n
      case O(o) => o.parent
      case A(a) => a.parent
    }

    ghost function Points(n: Node): Content {
      match n
      case O(o) => Obj(o)
      case A(a) => Arr(a)
    }

    /** A node is a root, or one level below the holder of the value that points to it. */
    ghost predicate Ranked(n: Node, parent: JsonValue?)
      reads this, pairs, values
    {
      && n in root && n in depth && depth[n] <= height
      && if parent == null then
           root[n] == n && depth[n] == 0
         else
           && parent in values && Held(parent) && Holder(parent) in root && Holder(parent) in depth
           && root[n] == root[Holder(parent)] && depth[n] == depth[Holder(parent)] + 1
    }

    ghost predicate ObjectOk(o: JsonObject)
      reads this, objects, arrays, pairs, values
    {
      && o in objects
      && Ranked(O(o), o.parent)
      && (o.parent != null ==> o.parent.content == Obj(o))
      && forall p | p in o.pairs :: p in pairs && p.parent == o
    }

    ghost predicate ArrayOk(a: JsonArray)
      reads this, objects, arrays, pairs, values
    {
      && a in arrays
      && Ranked(A(a), a.parent)
      && (a.parent != null ==> a.parent.content == Arr(a))
      && forall v | v in a.values :: v in values && v.parentPair == null && v.parentArray == a
    }

    ghost predicate PairOk(p: JsonPair)
      reads this, pairs, values
    {
      && p in pairs
      && p.parent != null && p.parent in objects
      && p.value in values && p.value.parentPair == p
    }

    ghost predicate ValueOk(v: JsonValue)
      reads this, objects, arrays, pairs, values
    {
      && v in values
      && Held(v)
      && match v.content
         case Integer(_) => true
         case Str(escaped) => escaped == Escape(v.text)
         case Obj(o) => o in objects && o.parent == v
         case Arr(a) => a in arrays && a.parent == v
    }

    ghost predicate Valid()
      reads this, objects, arrays, pairs, values
    {
      && (forall o | o in objects :: ObjectOk(o))
      && (forall a | a in arrays :: ArrayOk(a))
      && (forall p | p in pairs :: PairOk(p))
      && (forall v | v in values :: ValueOk(v))
    }

    constructor ()
      ensures Valid()
      ensures objects == {} && arrays == {} && pairs == {} && values == {}
    {
      objects, arrays, pairs, values := {}, {}, {}, {};
      root, depth, height := map[], map[], 0;
    }

    // ----- levels -----

    /** The tree a node belongs to starts with an object; an array without a parent is not asked for
        its level. */
    ghost predicate Rooted(n: Node)
      reads this
    {
      n in root && root[n].O?
    }

    function ObjectLevel(o: JsonObject): (level: nat)
      requires Valid() && o in objects && Rooted(O(o))
      reads this, objects, arrays, pairs, values
      ensures O(o) in depth && level == depth[O(o)]
      decreases if O(o) in depth then depth[O(o)] else 0, 0
    {
      assert ObjectOk(o);
      if o.parent == null then 0 else ValueLevel(o.parent)
    }

    function PairLevel(p: JsonPair): (level: nat)
      requires Valid() && p in pairs && p.parent != null && p.parent in objects && Rooted(O(p.parent))
      reads this, objects, arrays, pairs, values
      ensures O(p.parent) in depth && level == depth[O(p.parent)] + 1
      decreases if O(p.parent) in depth then depth[O(p.parent)] else 0, 1
    {
      ObjectLevel(p.parent) + 1
    }

    function ArrayLevel(a: JsonArray): (level: nat)
      requires Valid() && a in arrays && Rooted(A(a))
      reads this, objects, arrays, pairs, values
      ensures A(a) in depth && level == depth[A(a)]
      decreases if A(a) in depth then depth[A(a)] else 0, 0
    {
      assert ArrayOk(a);
      ValueLevel(a.parent)
    }

    function ValueLevel(v: JsonValue): (level: nat)
      requires Valid() && v in values && Held(v) && Rooted(Holder(v))
      reads this, objects, arrays, pairs, values
      ensures Holder(v) in depth && level == depth[Holder(v)] + 1
      decreases if Holder(v) in depth then depth[Holder(v)] else 0, 2
    {
      assert ValueOk(v);
      if v.parentPair != null then
        assert PairOk(v.parentPair);
        PairLevel(v.parentPair)
      else
        ArrayLevel(v.parentArray) + 1
    }

    // ----- creating and attaching -----

    /** A new root has come in; nothing else has changed. */
    twostate predicate NewNode(new n: Node)
      reads this, objects, arrays, pairs, values
    {
      && objects == old(objects) + (if n.O? then {n.o} else {})
      && arrays == old(arrays) + (if n.A? then {n.a} else {})
      && (match n
          case O(o) => o !in old(objects) && o.pairs == [] && o.parent == null
          case A(a) => a !in old(arrays) && a.values == [] && a.parent == null)
      && pairs == old(pairs) && values == old(values)
      && root == old(root)[n := n] && depth == old(depth)[n := 0] && height == old(height)
      && unchanged(old(objects)) && unchanged(old(arrays))
      && unchanged(old(pairs)) && unchanged(old(values))
    }

    twostate lemma NewNodeKeepsValid(new n: Node)
      requires old(Valid()) && NewNode(n)
      ensures Valid()
    {
      forall x | x in objects
        ensures ObjectOk(x)
      {
        assert O(x) != n ==> old(ObjectOk(x));
      }
      forall x | x in arrays
        ensures ArrayOk(x)
      {
        assert A(x) != n ==> old(ArrayOk(x));
      }
      forall p | p in pairs
        ensures PairOk(p)
      {
        assert old(PairOk(p));
      }
      forall v | v in values
        ensures ValueOk(v)
      {
        assert old(ValueOk(v));
      }
    }

    method CreateObject() returns (o: JsonObject)
      requires Valid()
      modifies this
      ensures Valid() && fresh(o) && NewNode(O(o))
    {
      o := new JsonObject();
      objects := objects + {o};
      root, depth := root[O(o) := O(o)], depth[O(o) := 0];
      NewNodeKeepsValid(O(o));
    }

    method CreateArray() returns (a: JsonArray)
      requires Valid()
      modifies this
      ensures Valid() && fresh(a) && NewNode(A(a))
    {
      a := new JsonArray();
      arrays := arrays + {a};
      root, depth := root[A(a) := A(a)], depth[A(a) := 0];
      NewNodeKeepsValid(A(a));
    }

    /** A node may be attached under `p` when nothing holds it yet and `p` is not in its own tree. */
    ghost predicate CanAttach(c: Node, p: Node)
      reads this, objects, arrays
    {
      Has(c) && p in root && root[p] != c && Parent(c) == null
    }

    /** The bookkeeping for attaching `c` under `p`: the whole tree of `c` moves below `p`. */
    ghost function NewRoot(c: Node, p: Node): map<Node, Node>
      requires p in root
      reads this
    {
      map n | n in root :: if root[n] == c then root[p] else root[n]
    }

    ghost function NewDepth(c: Node, p: Node): map<Node, nat>
      requires p in depth
      reads this
    {
      map n | n in depth ::
        if n in root && root[n] == c then depth[n] + depth[p] + 1 else depth[n]
    }

    /** json_create_value_*: the new value, or null for an empty string. */
    method CreateValue(arg: Argument) returns (value: JsonValue?)
      modifies ObjectLink(arg)`parent, ArrayLink(arg)`parent
      ensures value == null <==> arg == String(Some(""))
      ensures value != null ==>
                && fresh(value) && value.parentPair == null && value.parentArray == null
                && Holds(value.content, value.text, arg)
      ensures value != null ==> match arg
                                case Int(number) => value.content == Integer(number)
                                case String(None) => value.content == Str("(null)") && value.text == "(null)"
                                case String(Some(str)) => value.content == Str(Escape(str)) && value.text == str
                                case Child(O(o)) => value.content == Obj(o)
                                case Child(A(a)) => value.content == Arr(a)
      ensures arg.Child? ==> match arg.node
                             case O(o) => o.parent == value
                             case A(a) => a.parent == value
    {
      match arg
      case Int(number) =>
        value := new JsonValue(Integer(number), "");
      case String(str) =>
        var chars := if str.Some? then str.value else "(null)";
        var escaped := StrdupEscape(chars);
        if escaped == null {
          return null;
        }
        value := new JsonValue(Str(escaped[..]), chars);
      case Child(O(o)) =>
        value := new JsonValue(Obj(o), "");
        o.parent := value;
      case Child(A(a)) =>
        value := new JsonValue(Arr(a), "");
        a.parent := value;
    }

    /** One value has been added to `p`, through a pair when `p` is an object. */
    twostate predicate Grew(new p: Node, new value: JsonValue, new pair: JsonPair?)
      reads this, objects, arrays, pairs, values
    {
      && objects == old(objects) && arrays == old(arrays)
      && value !in old(values) && values == old(values) + {value}
      && (if pair == null then pairs == old(pairs)
          else pair !in old(pairs) && pairs == old(pairs) + {pair})
      && unchanged(old(pairs)) && unchanged(old(values))
      && (forall o | o in objects :: GrewObject(o, p, value, pair))
      && (forall a | a in arrays :: GrewArray(a, p, value))
      && (match p
          case O(o) => o in objects && pair != null && pair.value == value && pair.parent == o
                       && value.parentPair == pair
          case A(a) => a in arrays && pair == null && value.parentPair == null
                       && value.parentArray == a)
      && (value.content.Str? ==> value.content.escaped == Escape(value.text))
      && MovedBelow(p, value)
    }

    twostate predicate GrewObject(o: JsonObject, new p: Node, new value: JsonValue, new pair: JsonPair?)
      reads this, o, value
    {
      && o.pairs == (if O(o) == p && pair != null then old(o.pairs) + [pair] else old(o.pairs))
      && if value.content == Obj(o) then old(o.parent) == null && o.parent == value
         else o.parent == old(o.parent)
    }

    twostate predicate GrewArray(a: JsonArray, new p: Node, new value: JsonValue)
      reads this, a, value
    {
      && a.values == (if A(a) == p then old(a.values) + [value] else old(a.values))
      && if value.content == Arr(a) then old(a.parent) == null && a.parent == value
         else a.parent == old(a.parent)
    }

    /** The ranks: a child brings its whole tree below `p`, any other value moves nothing. */
    twostate predicate MovedBelow(new p: Node, new value: JsonValue)
      reads this, value
    {
      && p in old(root) && p in old(depth)
      && match value.content
         case Obj(o) => o in old(objects) && Moved(O(o), p)
         case Arr(a) => a in old(arrays) && Moved(A(a), p)
         case _ => root == old(root) && depth == old(depth) && height == old(height)
    }

    twostate predicate Moved(c: Node, new p: Node)
      reads this
    {
      && p in old(root) && p in old(depth) && old(root)[p] != c
      && root == old(NewRoot(c, p)) && depth == old(NewDepth(c, p))
      && height == 2 * old(height) + 1
    }

    /** A node that was one level below another, in the same tree, still is. */
    twostate lemma StillBelow(new p: Node, new value: JsonValue, n: Node, new holder: Node)
      requires MovedBelow(p, value)
      requires n in old(root) && n in old(depth) && holder in old(root) && holder in old(depth)
      requires old(depth)[n] <= old(height) && old(depth)[p] <= old(height)
      requires old(root)[n] == old(root)[holder] && old(depth)[n] == old(depth)[holder] + 1
      ensures n in root && n in depth && depth[n] <= height
      ensures holder in root && holder in depth
      ensures root[n] == root[holder] && depth[n] == depth[holder] + 1
    {
    }

    /** A root that is not attached stays a root; one that is stands below `p`. */
    twostate lemma RootMoved(new p: Node, new value: JsonValue, n: Node)
      requires MovedBelow(p, value)
      requires n in old(root) && n in old(depth) && old(depth)[p] <= old(height)
      requires old(root)[n] == n && old(depth)[n] == 0
      ensures n in root && n in depth && depth[n] <= height
      ensures if value.content == Points(n)
              then p in root && p in depth && root[n] == root[p] && depth[n] == depth[p] + 1
              else root[n] == n && depth[n] == 0
    {
    }

    twostate lemma HolderKept(new p: Node, new value: JsonValue, new pair: JsonPair?, v: JsonValue)
      requires Grew(p, value, pair) && v in old(values) && old(Held(v))
      ensures Held(v) && Holder(v) == old(Holder(v))
    {
    }

    /** What was known of the parent of a node before the addition, and what it is now. */
    twostate lemma ParentKept(new p: Node, new value: JsonValue, new pair: JsonPair?, n: Node)
      requires old(Valid()) && Grew(p, value, pair) && old(Has(n))
      ensures old(Ranked(n, Parent(n)))
      ensures if value.content == Points(n) then old(Parent(n)) == null && Parent(n) == value
              else Parent(n) == old(Parent(n)) && (Parent(n) != null ==> Parent(n).content == Points(n))
      ensures p in old(depth) && old(depth)[p] <= old(height)
    {
      hide MovedBelow, NewRoot, NewDepth, Held, Holder;
      match n {
        case O(o) => assert old(ObjectOk(o)) && GrewObject(o, p, value, pair);
        case A(a) => assert old(ArrayOk(a)) && GrewArray(a, p, value);
      }
      match p {
        case O(o) => assert old(ObjectOk(o));
        case A(a) => assert old(ArrayOk(a));
      }
    }

    twostate lemma GrewRanked(new p: Node, new value: JsonValue, new pair: JsonPair?, n: Node)
      requires old(Valid()) && Grew(p, value, pair) && old(Has(n))
      ensures Ranked(n, Parent(n))
      ensures Parent(n) != null ==> Parent(n).content == Points(n)
    {
      ParentKept(p, value, pair, n);
      hide MovedBelow, GrewObject, GrewArray, NewRoot, NewDepth, ObjectOk, ArrayOk, Valid, Points, Parent;
      if old(Parent(n)) == null {
        RootMoved(p, value, n);
        assert value in values && Held(value) && Holder(value) == p;
      } else {
        HolderKept(p, value, pair, old(Parent(n)));
        StillBelow(p, value, n, Holder(Parent(n)));
      }
    }

    twostate lemma GrewObjectsOk(new p: Node, new value: JsonValue, new pair: JsonPair?)
      requires old(Valid()) && Grew(p, value, pair)
      ensures forall x | x in objects :: ObjectOk(x)
    {
      hide Ranked, Held, Holder, MovedBelow;
      forall x | x in objects
        ensures ObjectOk(x)
      {
        assert old(ObjectOk(x)) && GrewObject(x, p, value, pair);
        GrewRanked(p, value, pair, O(x));
      }
    }

    twostate lemma GrewArraysOk(new p: Node, new value: JsonValue, new pair: JsonPair?)
      requires old(Valid()) && Grew(p, value, pair)
      ensures forall x | x in arrays :: ArrayOk(x)
    {
      hide Ranked, Held, Holder, MovedBelow;
      forall x | x in arrays
        ensures ArrayOk(x)
      {
        assert old(ArrayOk(x)) && GrewArray(x, p, value);
        GrewRanked(p, value, pair, A(x));
      }
    }

    twostate lemma GrewPairsOk(new p: Node, new value: JsonValue, new pair: JsonPair?)
      requires old(Valid()) && Grew(p, value, pair)
      ensures forall x | x in pairs :: PairOk(x)
    {
      forall x | x in pairs
        ensures PairOk(x)
      {
        assert x != pair ==> old(PairOk(x));
      }
    }

    twostate lemma GrewValuesOk(new p: Node, new value: JsonValue, new pair: JsonPair?)
      requires old(Valid()) && Grew(p, value, pair)
      ensures forall x | x in values :: ValueOk(x)
    {
      forall v | v in values
        ensures ValueOk(v)
      {
        assert v != value ==> old(ValueOk(v));
        match v.content
        case Obj(o) => assert GrewObject(o, p, value, pair);
        case Arr(a) => assert GrewArray(a, p, value);
        case _ =>
      }
    }

    twostate lemma GrewKeepsValid(new p: Node, new value: JsonValue, new pair: JsonPair?)
      requires old(Valid()) && Grew(p, value, pair)
      ensures Valid()
    {
      GrewObjectsOk(p, value, pair);
      GrewArraysOk(p, value, pair);
      GrewPairsOk(p, value, pair);
      GrewValuesOk(p, value, pair);
    }

    /** json_create_pair. */
    method CreatePair(name: string, value: JsonValue) returns (pair: JsonPair)
      modifies value`parentPair
      ensures fresh(pair) && pair.name == name && pair.value == value && pair.parent == null
      ensures value.parentPair == pair
    {
      pair := new JsonPair(name, value);
      value.parentPair := pair;
    }

    /** json_object_add_pair. */
    method ObjectAddPair(obj: JsonObject, pair: JsonPair)
      modifies obj`pairs, pair`parent
      ensures obj.pairs == old(obj.pairs) + [pair] && pair.parent == obj
    {
      obj.pairs := obj.pairs + [pair];
      pair.parent := obj;
    }

    /** The pointers set by json_object_add_value_type. */
    method LinkInObject(obj: JsonObject, name: string, arg: Argument)
      returns (value: JsonValue?, pair: JsonPair?)
      modifies obj`pairs, ObjectLink(arg)`parent, ArrayLink(arg)`parent
      ensures value == null <==> arg == String(Some(""))
      ensures value == null ==> obj.pairs == old(obj.pairs)
      ensures value != null ==>
                && fresh(value) && Holds(value.content, value.text, arg)
                && pair != null && fresh(pair) && pair.name == name
                && pair.value == value && value.parentPair == pair
                && pair.parent == obj && obj.pairs == old(obj.pairs) + [pair]
      ensures arg.Child? ==> match arg.node
                             case O(o) => o.parent == value
                             case A(a) => a.parent == value
    {
      pair := null;
      value := CreateValue(arg);
      if value != null {
        pair := CreatePair(name, value);
        ObjectAddPair(obj, pair);
      }
    }

    /** The steps of json_object_add_value_type, with what they change. */
    method InsertInObject(obj: JsonObject, name: string, arg: Argument)
      returns (ok: bool, ghost value: JsonValue?, ghost pair: JsonPair?)
      requires Valid() && obj in objects
      requires arg.Child? ==> CanAttach(arg.node, O(obj))
      modifies this, obj, ObjectLink(arg)`parent, ArrayLink(arg)`parent
      ensures !ok ==> Valid()
      ensures ok <==> arg != String(Some(""))
      ensures !ok ==> unchanged(this, obj)
      ensures ok ==> value != null && fresh(value) && pair != null && fresh(pair)
      ensures ok ==> Grew(O(obj), value, pair) && pair.name == name
      ensures ok ==> Holds(value.content, value.text, arg)
    {
      hide Valid, NewRoot, NewDepth;
      IsRanked(O(obj));
      var newValue, newPair := LinkInObject(obj, name, arg);
      ok, value, pair := newValue != null, newValue, newPair;
      if ok {
        Record(O(obj), arg, newValue, newPair);
        assert MovedBelow(O(obj), value);
        hide MovedBelow;
        forall o | o in objects
          ensures GrewObject(o, O(obj), value, pair)
        {
        }
        forall a | a in arrays
          ensures GrewArray(a, O(obj), value)
        {
        }
        hide GrewObject, GrewArray;
        assert Grew(O(obj), value, pair);
      }
    }

    /** json_object_add_value_type.  The result is false where the source returns ENOMEM. */
    method AddToObject(obj: JsonObject, name: string, arg: Argument)
      returns (ok: bool, ghost value: JsonValue?, ghost pair: JsonPair?)
      requires Valid() && obj in objects
      requires arg.Child? ==> CanAttach(arg.node, O(obj))
      modifies this, obj, ObjectLink(arg)`parent, ArrayLink(arg)`parent
      ensures Valid()
      ensures ok <==> arg != String(Some(""))
      ensures !ok ==> unchanged(this, obj)
      ensures ok ==> value != null && fresh(value) && pair != null && fresh(pair)
      ensures ok ==> Grew(O(obj), value, pair) && pair.name == name
      ensures ok ==> Holds(value.content, value.text, arg)
      ensures ok ==> TreeOf(O(obj)) == Object(AppendMember(old(TreeOf(O(obj))).members, name,
                if arg.Int? then Number(arg.number)
                else if arg.Child? then old(TreeOf(arg.node))
                else if arg.str.None? then Text("(null)") else Text(arg.str.value)))
    {
      ArgumentTreeIs(arg);
      hide *;
      ok, value, pair := InsertInObject(obj, name, arg);
      if ok {
        GrewKeepsValid(O(obj), value, pair);
        ArgumentAdded(O(obj), value, pair, arg);
        ObjectGrew(value, pair, obj);
      }
    }

    /** json_array_add_value. */
    method ArrayAddValue(list: JsonArray, value: JsonValue)
      modifies list`values, value`parentArray
      ensures list.values == old(list.values) + [value] && value.parentArray == list
    {
      list.values := list.values + [value];
      value.parentArray := list;
    }

    /** The pointers set by json_array_add_value_type. */
    method LinkInArray(list: JsonArray, arg: Argument) returns (value: JsonValue?)
      modifies list`values, ObjectLink(arg)`parent, ArrayLink(arg)`parent
      ensures value == null <==> arg == String(Some(""))
      ensures value == null ==> list.values == old(list.values)
      ensures value != null ==>
                && fresh(value) && Holds(value.content, value.text, arg)
                && value.parentPair == null && value.parentArray == list
                && list.values == old(list.values) + [value]
      ensures arg.Child? ==> match arg.node
                             case O(o) => o.parent == value
                             case A(a) => a.parent == value
    {
      value := CreateValue(arg);
      if value != null {
        ArrayAddValue(list, value);
      }
    }

    /** The steps of json_array_add_value_type, with what they change. */
    method InsertInArray(list: JsonArray, arg: Argument) returns (ok: bool, ghost value: JsonValue?)
      requires Valid() && list in arrays
      requires arg.Child? ==> CanAttach(arg.node, A(list))
      modifies this, list, ObjectLink(arg)`parent, ArrayLink(arg)`parent
      ensures !ok ==> Valid()
      ensures ok <==> arg != String(Some(""))
      ensures !ok ==> unchanged(this, list)
      ensures ok ==> value != null && fresh(value) && Grew(A(list), value, null)
      ensures ok ==> Holds(value.content, value.text, arg)
    {
      hide Valid, NewRoot, NewDepth;
      IsRanked(A(list));
      var newValue := LinkInArray(list, arg);
      ok, value := newValue != null, newValue;
      if ok {
        Record(A(list), arg, newValue, null);
        assert MovedBelow(A(list), value);
        hide MovedBelow;
        forall o | o in objects
          ensures GrewObject(o, A(list), value, null)
        {
        }
        forall a | a in arrays
          ensures GrewArray(a, A(list), value)
        {
        }
        hide GrewObject, GrewArray;
        assert Grew(A(list), value, null);
      }
    }

    /** json_array_add_value_type. */
    method AddToArray(list: JsonArray, arg: Argument) returns (ok: bool, ghost value: JsonValue?)
      requires Valid() && list in arrays
      requires arg.Child? ==> CanAttach(arg.node, A(list))
      modifies this, list, ObjectLink(arg)`parent, ArrayLink(arg)`parent
      ensures Valid()
      ensures ok <==> arg != String(Some(""))
      ensures !ok ==> unchanged(this, list)
      ensures ok ==> value != null && fresh(value) && Grew(A(list), value, null)
      ensures ok ==> Holds(value.content, value.text, arg)
      ensures ok ==> TreeOf(A(list)) == Array(AppendItem(old(TreeOf(A(list))).items,
                if arg.Int? then Number(arg.number)
                else if arg.Child? then old(TreeOf(arg.node))
                else if arg.str.None? then Text("(null)") else Text(arg.str.value)))
    {
      ArgumentTreeIs(arg);
      hide *;
      ok, value := InsertInArray(list, arg);
      if ok {
        GrewKeepsValid(A(list), value, null);
        ArgumentAdded(A(list), value, null, arg);
        ArrayGrew(value, list);
      }
    }

    /** The bookkeeping of an addition. */
    ghost method Record(p: Node, arg: Argument, value: JsonValue, pair: JsonPair?)
      requires p in root && p in depth
      requires arg.Child? ==> Has(arg.node) && root[p] != arg.node
      requires Holds(value.content, value.text, arg)
      modifies this
      ensures objects == old(objects) && arrays == old(arrays)
      ensures values == old(values) + {value}
      ensures pairs == old(pairs) + (if pair == null then {} else {pair})
      ensures MovedBelow(p, value)
    {
      if arg.Child? {
        root, depth := NewRoot(arg.node, p), NewDepth(arg.node, p);
        height := 2 * height + 1;
      }
      values := values + {value};
      pairs := pairs + (if pair == null then {} else {pair});
    }

    lemma IsRanked(n: Node)
      requires Valid() && Has(n)
      ensures n in root && n in depth && depth[n] <= height
    {
      match n
      case O(o) => assert ObjectOk(o);
      case A(a) => assert ArrayOk(a);
    }

    /** A child is one level below its holder, in the same tree. */
    lemma ChildRank(v: JsonValue, c: Node)
      requires Valid() && v in values && v.content == Points(c)
      ensures Has(c) && Held(v)
      ensures Has(Holder(v)) && c in depth && c in root && Holder(v) in depth && Holder(v) in root
      ensures depth[c] == depth[Holder(v)] + 1 <= height && root[c] == root[Holder(v)]
    {
      assert ValueOk(v);
      match c
      case O(o) => assert ObjectOk(o);
      case A(a) => assert ArrayOk(a);
    }

    // ----- the tree as a value -----

    /** The levels that may still be below a node. */
    ghost function Below(n: Node): nat
      reads this
    {
      if n in depth && depth[n] <= height then height - depth[n] else 0
    }

    ghost function TreeOf(n: Node): Value
      requires Valid() && Has(n)
      reads this, objects, arrays, pairs, values
      decreases Below(n), 2
    {
      match n
      case O(o) => assert ObjectOk(o); Object(MembersFrom(o, 0))
      case A(a) => assert ArrayOk(a); Array(ItemsFrom(a, 0))
    }

    ghost function MembersFrom(o: JsonObject, i: nat): Members
      requires Valid() && o in objects && i <= |o.pairs|
      reads this, objects, arrays, pairs, values
      decreases Below(O(o)), 1, |o.pairs| - i
    {
      if i == |o.pairs| then NoMember else
      assert ObjectOk(o);
      var pair := o.pairs[i];
      assert PairOk(pair);
      Member(pair.name, ValueTree(pair.value, O(o)), MembersFrom(o, i + 1))
    }

    ghost function ItemsFrom(a: JsonArray, i: nat): Items
      requires Valid() && a in arrays && i <= |a.values|
      reads this, objects, arrays, pairs, values
      decreases Below(A(a)), 1, |a.values| - i
    {
      if i == |a.values| then NoItem else
      assert ArrayOk(a);
      Item(ValueTree(a.values[i], A(a)), ItemsFrom(a, i + 1))
    }

    ghost function ValueTree(v: JsonValue, holder: Node): Value
      requires Valid() && v in values && Held(v) && holder == Holder(v)
      reads this, objects, arrays, pairs, values
      decreases Below(holder), 0
    {
      assert ValueOk(v);
      match v.content
      case Integer(number) => Number(number)
      case Str(_) => Text(v.text)
      case Obj(o) => ChildRank(v, O(o)); TreeOf(O(o))
      case Arr(a) => ChildRank(v, A(a)); TreeOf(A(a))
    }

    // ----- what an addition does to the trees -----

    /** A node outside the tree of `p`, or deeper in it than `p`: none of its contents is `p`. */
    ghost predicate Apart(n: Node, p: Node)
      reads this
    {
      n in root && n in depth && p in root && p in depth
      && (root[n] != root[p] || depth[n] > depth[p])
    }

    /** An addition to `p` leaves the tree of such a node as it was. */
    twostate lemma TreeKept(new p: Node, new value: JsonValue, new pair: JsonPair?, n: Node)
      requires old(Valid()) && Grew(p, value, pair)
      requires old(Has(n)) && old(Apart(n, p))
      ensures Valid() && TreeOf(n) == old(TreeOf(n))
      decreases old(Below(n)), 2
    {
      GrewKeepsValid(p, value, pair);
      match n
      case O(o) =>
        assert old(ObjectOk(o)) && GrewObject(o, p, value, pair);
        MembersKept(p, value, pair, o, 0, |o.pairs|);
      case A(a) =>
        assert old(ArrayOk(a)) && GrewArray(a, p, value);
        ItemsKept(p, value, pair, a, 0);
    }

    /** The members of an object that is `p` itself or apart from it, up to its old length. */
    twostate lemma MembersKept(new p: Node, new value: JsonValue, new pair: JsonPair?, o: JsonObject,
                               new i: nat, new n: nat)
      requires old(Valid()) && Grew(p, value, pair)
      requires o in old(objects) && old(Apart(O(o), p))
      requires i <= n == |o.pairs|
      requires o.pairs == old(o.pairs)
      ensures Valid() && MembersFrom(o, i) == old(MembersFrom(o, i))
      decreases old(Below(O(o))), 1, n - i
    {
      hide TreeOf, ValueTree, NewRoot, NewDepth, GrewObject, GrewArray, MovedBelow, Ranked, ArrayOk;
      GrewKeepsValid(p, value, pair);
      if i < n {
        var q := o.pairs[i];
        assert old(ObjectOk(o)) && old(PairOk(q)) && ObjectOk(o) && PairOk(q);
        ValueKept(p, value, pair, q.value);
        MembersKept(p, value, pair, o, i + 1, n);
      }
    }

    twostate lemma ItemsKept(new p: Node, new value: JsonValue, new pair: JsonPair?, a: JsonArray,
                             new i: nat)
      requires old(Valid()) && Grew(p, value, pair)
      requires a in old(arrays) && old(Apart(A(a), p))
      requires i <= |a.values|
      requires a.values == old(a.values)
      ensures Valid() && ItemsFrom(a, i) == old(ItemsFrom(a, i))
      decreases old(Below(A(a))), 1, |a.values| - i
    {
      hide TreeOf, ValueTree, NewRoot, NewDepth;
      GrewKeepsValid(p, value, pair);
      if i < |a.values| {
        var v := a.values[i];
        assert old(ArrayOk(a)) && old(ValueOk(v)) && ArrayOk(a) && ValueOk(v);
        ValueKept(p, value, pair, v);
        ItemsKept(p, value, pair, a, i + 1);
      }
    }

    twostate lemma ValueKept(new p: Node, new value: JsonValue, new pair: JsonPair?, v: JsonValue)
      requires old(Valid()) && Grew(p, value, pair)
      requires v in old(values) && old(Held(v))
      requires old(Holder(v)) == p || old(Apart(Holder(v), p))
      ensures Valid() && Held(v) && Holder(v) == old(Holder(v))
      ensures ValueTree(v, Holder(v)) == old(ValueTree(v, Holder(v)))
      decreases old(Below(Holder(v))), 0
    {
      GrewKeepsValid(p, value, pair);
      assert old(ValueOk(v)) && ValueOk(v);
      match v.content
      case Obj(o) =>
        assert old(ObjectOk(o));
        TreeKept(p, value, pair, O(o));
      case Arr(a) =>
        assert old(ArrayOk(a));
        TreeKept(p, value, pair, A(a));
      case _ =>
    }

    /** The tree of what is added. */
    ghost function ArgumentTree(arg: Argument): Value
      requires Valid() && (arg.Child? ==> Has(arg.node))
      reads this, objects, arrays, pairs, values
    {
      match arg
      case Int(number) => Number(number)
      case String(str) => Text(if str.Some? then str.value else "(null)")
      case Child(n) => TreeOf(n)
    }

    lemma ArgumentTreeIs(arg: Argument)
      requires Valid() && (arg.Child? ==> Has(arg.node))
      ensures ArgumentTree(arg)
           == if arg.Int? then Number(arg.number)
              else if arg.Child? then TreeOf(arg.node)
              else if arg.str.None? then Text("(null)") else Text(arg.str.value)
    {
      hide TreeOf, Valid;
    }

    twostate lemma ArgumentAdded(new p: Node, new value: JsonValue, new pair: JsonPair?, arg: Argument)
      requires old(Valid()) && Grew(p, value, pair)
      requires Holds(value.content, value.text, arg)
      requires arg.Child? ==> old(CanAttach(arg.node, p))
      ensures Valid() && Held(value) && Holder(value) == p
      ensures ValueTree(value, p) == old(ArgumentTree(arg))
    {
      GrewKeepsValid(p, value, pair);
      assert ValueOk(value);
      match arg
      case Child(O(o)) =>
        assert old(ObjectOk(o));
        TreeKept(p, value, pair, O(o));
      case Child(A(a)) =>
        assert old(ArrayOk(a));
        TreeKept(p, value, pair, A(a));
      case _ =>
    }

    /** Adding to an object appends one member to its tree, and nothing else. */
    twostate lemma MembersGrew(new value: JsonValue, new pair: JsonPair, o: JsonObject, new i: nat)
      requires old(Valid()) && o in old(objects) && Grew(O(o), value, pair)
      requires i <= |old(o.pairs)|
      ensures Valid() && Held(value) && Holder(value) == O(o)
      ensures MembersFrom(o, i)
           == AppendMember(old(MembersFrom(o, i)), pair.name, ValueTree(value, O(o)))
      decreases |old(o.pairs)| - i
    {
      hide TreeOf, ValueTree, NewRoot, NewDepth;
      GrewKeepsValid(O(o), value, pair);
      assert old(ObjectOk(o)) && ObjectOk(o) && GrewObject(o, O(o), value, pair);
      if i == |old(o.pairs)| {
        assert o.pairs[i] == pair;
        assert MembersFrom(o, i + 1) == NoMember;
      } else {
        var q := o.pairs[i];
        assert q == old(o.pairs)[i];
        assert old(PairOk(q)) && PairOk(q);
        ValueKept(O(o), value, pair, q.value);
        MembersGrew(value, pair, o, i + 1);
      }
    }

    twostate lemma ObjectGrew(new value: JsonValue, new pair: JsonPair, o: JsonObject)
      requires old(Valid()) && o in old(objects) && Grew(O(o), value, pair)
      ensures Valid() && Held(value) && Holder(value) == O(o)
      ensures TreeOf(O(o))
           == Object(AppendMember(old(TreeOf(O(o))).members, pair.name, ValueTree(value, O(o))))
    {
      MembersGrew(value, pair, o, 0);
    }

    twostate lemma ArrayGrew(new value: JsonValue, a: JsonArray)
      requires old(Valid()) && a in old(arrays) && Grew(A(a), value, null)
      ensures Valid() && Held(value) && Holder(value) == A(a)
      ensures TreeOf(A(a)) == Array(AppendItem(old(TreeOf(A(a))).items, ValueTree(value, A(a))))
    {
      ItemsGrew(value, a, 0);
    }

    twostate lemma ItemsGrew(new value: JsonValue, a: JsonArray, new i: nat)
      requires old(Valid()) && a in old(arrays) && Grew(A(a), value, null)
      requires i <= |old(a.values)|
      ensures Valid() && Held(value) && Holder(value) == A(a)
      ensures ItemsFrom(a, i) == AppendItem(old(ItemsFrom(a, i)), ValueTree(value, A(a)))
      decreases |old(a.values)| - i
    {
      hide TreeOf, ValueTree, NewRoot, NewDepth;
      GrewKeepsValid(A(a), value, null);
      assert old(ArrayOk(a)) && ArrayOk(a) && GrewArray(a, A(a), value);
      if i == |old(a.values)| {
        assert a.values[i] == value;
        assert ItemsFrom(a, i + 1) == NoItem;
      } else {
        var v := a.values[i];
        assert v == old(a.values)[i];
        assert old(ValueOk(v)) && ValueOk(v);
        ValueKept(A(a), value, null, v);
        ItemsGrew(value, a, i + 1);
      }
    }

    // ----- printing -----

    /** json_print_object, with the text it prints as its result. */
    method PrintObject(obj: JsonObject) returns (text: string)
      requires Valid() && obj in objects && Rooted(O(obj))
      ensures text == Render(TreeOf(O(obj)), ObjectLevel(obj))
      ensures Blanks(2 * ObjectLevel(obj)) + text
           == Joined(ValueLines(TreeOf(O(obj)), ObjectLevel(obj), "", ""))
      ensures Read(text) == Some(TreeOf(O(obj))) <==> Clean(TreeOf(O(obj)))
      decreases Below(O(obj)), 3
    {
      hide *;
      ObjectText(obj);
      text := "{\n";
      ghost var all := RenderMembers(MembersFrom(obj, 0), ObjectLevel(obj) + 1);
      var i := 0;
      while i < |obj.pairs|
        invariant 0 <= i <= |obj.pairs|
        invariant text + MembersLeft(obj, i) == "{\n" + all
      {
        NextMember(obj, i);
        var comma := if i > 0 then ",\n" else "";
        var pair := PrintPair(obj.pairs[i]);
        PrintedSoFar(text, comma, pair, MembersLeft(obj, i), MembersLeft(obj, i + 1), "{\n" + all);
        text := text + comma + pair;
        i := i + 1;
      }
      assert text + "" == text;
      text := text + "\n" + Indent(ObjectLevel(obj)) + "}";
    }

    /** What the loop of json_print_object still has to print at index `i`. */
    ghost function MembersLeft(o: JsonObject, i: nat): string
      requires Valid() && o in objects && i <= |o.pairs| && Rooted(O(o))
      reads this, objects, arrays, pairs, values
    {
      var rest := RenderMembers(MembersFrom(o, i), ObjectLevel(o) + 1);
      if 0 < i < |o.pairs| then ",\n" + rest else rest
    }

    /** An object's text around the texts of its pairs. */
    lemma ObjectText(o: JsonObject)
      requires Valid() && o in objects && Rooted(O(o))
      ensures var level, all := ObjectLevel(o), RenderMembers(MembersFrom(o, 0), ObjectLevel(o) + 1);
        && MembersLeft(o, 0) == all && MembersLeft(o, |o.pairs|) == ""
        && Render(TreeOf(O(o)), level) == "{\n" + all + "\n" + Indent(level) + "}"
        && Has(O(o))
        && (Read(Render(TreeOf(O(o)), level)) == Some(TreeOf(O(o))) <==> Clean(TreeOf(O(o))))
        && Blanks(2 * level) + Render(TreeOf(O(o)), level) == Joined(ValueLines(TreeOf(O(o)), level, "", ""))
    {
      LinesOf(TreeOf(O(o)), ObjectLevel(o));
      ReadsBackIffClean(TreeOf(O(o)), ObjectLevel(o));
      assert MembersFrom(o, |o.pairs|) == NoMember;
      hide MembersFrom, RenderMembers, Read, Clean;
    }

    lemma NextMember(o: JsonObject, i: nat)
      requires Valid() && o in objects && i < |o.pairs| && Rooted(O(o))
      ensures var pair := o.pairs[i];
        && pair in pairs && PairOk(pair) && pair.parent == o
        && Held(pair.value) && Holder(pair.value) == O(o)
        && MembersLeft(o, i) == (if i > 0 then ",\n" else "")
             + (RenderMember(pair.name, ValueTree(pair.value, O(o)), PairLevel(pair))
                + MembersLeft(o, i + 1))
    {
      assert ObjectOk(o) && PairOk(o.pairs[i]);
      var pair, rest := o.pairs[i], MembersFrom(o, i + 1);
      hide Render, RenderMember;
      assert MembersFrom(o, i) == Member(pair.name, ValueTree(pair.value, O(o)), rest);
      assert rest.Member? <==> i + 1 < |o.pairs|;
    }

    method PrintPair(pair: JsonPair) returns (text: string)
      requires Valid() && pair in pairs && PairOk(pair) && Rooted(O(pair.parent))
      requires Held(pair.value) && Holder(pair.value) == O(pair.parent)
      ensures text == RenderMember(pair.name, ValueTree(pair.value, O(pair.parent)), PairLevel(pair))
      ensures text == Joined(ValueLines(ValueTree(pair.value, O(pair.parent)), PairLevel(pair),
                                        "\"" + pair.name + "\" : ", ""))
      decreases Below(O(pair.parent)), 2
    {
      PairLines(pair.name, ValueTree(pair.value, O(pair.parent)), PairLevel(pair));
      text := Indent(PairLevel(pair)) + "\"" + pair.name + "\" : ";
      var value := PrintValue(pair.value, O(pair.parent), PairLevel(pair));
      text := text + value;
    }

    /** json_print_value; `holder` and `level` only name what encloses the value. */
    method PrintValue(value: JsonValue, ghost holder: Node, ghost level: nat) returns (text: string)
      requires Valid() && value in values && Held(value) && holder == Holder(value)
      requires Rooted(holder) && level == ValueLevel(value)
      ensures text == Render(ValueTree(value, holder), level)
      decreases Below(holder), 1
    {
      assert ValueOk(value);
      match value.content
      case Integer(number) =>
        text := Decimal(number);
      case Str(escaped) =>
        text := "\"" + escaped + "\"";
      case Obj(o) =>
        ChildRank(value, O(o));
        text := PrintObject(o);
      case Arr(a) =>
        ChildRank(value, A(a));
        text := PrintArray(a);
    }

    method PrintArray(list: JsonArray) returns (text: string)
      requires Valid() && list in arrays && Rooted(A(list))
      ensures text == Render(TreeOf(A(list)), ArrayLevel(list))
      ensures Blanks(2 * ArrayLevel(list)) + text
           == Joined(ValueLines(TreeOf(A(list)), ArrayLevel(list), "", ""))
      decreases Below(A(list)), 3
    {
      hide *;
      ArrayText(list);
      text := "[\n";
      ghost var all := RenderItems(ItemsFrom(list, 0), ArrayLevel(list) + 1);
      var i := 0;
      while i < |list.values|
        invariant 0 <= i <= |list.values|
        invariant text + ItemsLeft(list, i) == "[\n" + all
      {
        NextItem(list, i);
        var comma := if i > 0 then ",\n" else "";
        var level := ValueLevel(list.values[i]);
        var value := PrintValue(list.values[i], A(list), level);
        var item := Indent(level) + value;
        PrintedSoFar(text, comma, item, ItemsLeft(list, i), ItemsLeft(list, i + 1), "[\n" + all);
        text := text + comma + item;
        i := i + 1;
      }
      assert text + "" == text;
      text := text + "\n" + Indent(ArrayLevel(list)) + "]";
    }

    lemma ArrayText(a: JsonArray)
      requires Valid() && a in arrays && Rooted(A(a))
      ensures var level, all := ArrayLevel(a), RenderItems(ItemsFrom(a, 0), ArrayLevel(a) + 1);
        && ItemsLeft(a, 0) == all && ItemsLeft(a, |a.values|) == ""
        && Render(TreeOf(A(a)), level) == "[\n" + all + "\n" + Indent(level) + "]"
        && Blanks(2 * level) + Render(TreeOf(A(a)), level) == Joined(ValueLines(TreeOf(A(a)), level, "", ""))
    {
      LinesOf(TreeOf(A(a)), ArrayLevel(a));
      assert ItemsFrom(a, |a.values|) == NoItem;
      hide ItemsFrom, RenderItems;
    }

    lemma ItemText(v: Value, level: nat)
      ensures RenderItem(v, level) == Indent(level) + Render(v, level)
    {
    }

    lemma ItemPlace(a: JsonArray, i: nat)
      requires Valid() && a in arrays && i < |a.values| && Rooted(A(a))
      ensures var v := a.values[i];
        v in values && Held(v) && Holder(v) == A(a) && ValueLevel(v) == ArrayLevel(a) + 1
    {
      assert ArrayOk(a) && ValueOk(a.values[i]);
    }

    lemma NextItem(a: JsonArray, i: nat)
      requires Valid() && a in arrays && i < |a.values| && Rooted(A(a))
      ensures var v := a.values[i];
        && v in values && Held(v) && Holder(v) == A(a)
        && ItemsLeft(a, i) == (if i > 0 then ",\n" else "")
             + (Indent(ValueLevel(v)) + Render(ValueTree(v, A(a)), ValueLevel(v))
                + ItemsLeft(a, i + 1))
    {
      var v, rest := a.values[i], ItemsFrom(a, i + 1);
      ItemPlace(a, i);
      ItemText(ValueTree(v, A(a)), ValueLevel(v));
      hide Render, RenderItem, Indent;
      assert ItemsFrom(a, i) == Item(ValueTree(v, A(a)), rest);
      assert rest.Item? <==> i + 1 < |a.values|;
    }

    ghost function ItemsLeft(a: JsonArray, i: nat): string
      requires Valid() && a in arrays && i <= |a.values| && Rooted(A(a))
      reads this, objects, arrays, pairs, values
    {
      var rest := RenderItems(ItemsFrom(a, i), ArrayLevel(a) + 1);
      if 0 < i < |a.values| then ",\n" + rest else rest
    }
  }

  function AppendMember(ms: Members, name: string, value: Value): Members {
    match ms
    case NoMember => Member(name, value, NoMember)
    case Member(n, v, rest) => Member(n, v, AppendMember(rest, name, value))
  }

  function AppendItem(items: Items, value: Value): Items {
    match items
    case NoItem => Item(value, NoItem)
    case Item(v, rest) => Item(v, AppendItem(rest, value))
  }

  lemma LinesOf(v: Value, level: nat)
    ensures Blanks(2 * level) + Render(v, level) == Joined(ValueLines(v, level, "", ""))
  {
    hide Blanks, Render, Joined, ValueLines;
    RenderIsLines(v, level, "", "");
    assert "" + (Render(v, level) + "") == Render(v, level);
  }

  lemma PairLines(name: string, value: Value, level: nat)
    ensures RenderMember(name, value, level) == Joined(ValueLines(value, level, "\"" + name + "\" : ", ""))
  {
    hide Blanks, Indent, Render, Joined, ValueLines;
    var front := "\"" + name + "\" : ";
    IndentIsBlanks(level);
    RenderIsLines(value, level, front, "");
    assert Blanks(2 * level) + (front + (Render(value, level) + ""))
        == Blanks(2 * level) + "\"" + name + "\" : " + Render(value, level);
  }

  /** The members of an object, in their order. */
  function MemberList(ms: Members): seq<(string, Value)> {
    match ms
    case NoMember => []
    case Member(name, value, rest) => [(name, value)] + MemberList(rest)
  }

  function ItemList(items: Items): seq<Value> {
    match items
    case NoItem => []
    case Item(value, rest) => [value] + ItemList(rest)
  }

  /** A member is added behind all others. */
  lemma {:induction false} MemberIsLast(ms: Members, name: string, value: Value)
    ensures MemberList(AppendMember(ms, name, value)) == MemberList(ms) + [(name, value)]
  {
    if ms.Member? {
      MemberIsLast(ms.rest, name, value);
    }
  }

  lemma {:induction false} ItemIsLast(items: Items, value: Value)
    ensures ItemList(AppendItem(items, value)) == ItemList(items) + [value]
  {
    if items.Item? {
      ItemIsLast(items.rest, value);
    }
  }

  lemma PrintedSoFar(text: string, comma: string, piece: string, left: string, left': string,
                     whole: string)
    requires text + left == whole && left == comma + (piece + left')
    ensures text + comma + piece + left' == whole
  {
    assert text + comma + piece + left' == text + (comma + (piece + left'));
  }

  /** The child whose `parent` the creation of a value sets. */
  function ObjectLink(arg: Argument): set<JsonObject> {
    if arg.Child? && arg.node.O? then {arg.node.o} else {}
  }

  function ArrayLink(arg: Argument): set<JsonArray> {
    if arg.Child? && arg.node.A? then {arg.node.a} else {}
  }

  ghost predicate Holds(content: Content, text: string, arg: Argument) {
    match arg
    case Int(number) => content == Integer(number)
    case String(str) =>
      text == (if str.Some? then str.value else "(null)") && content == Str(Escape(text))
    case Child(O(o)) => content == Obj(o)
    case Child(A(a)) => content == Arr(a)
  }
}
