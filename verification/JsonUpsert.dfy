/**
  `upsert_json_value`: setting a value at a dotted path of a JSON document, creating objects on the
  way. The moving mutable reference of the source is the path walked so far: reading through it is
  `At`, writing through it is `Replace`, and both need the value to be there already.
 */
module JsonUpsert {
  import opened Options

  datatype Json = Null | Bool(b: bool) | Number(text: string) | Str(s: string)
    | Arr(elements: seq<Json>) | Obj(members: map<string, Json>)

  type Path = seq<string>

  const EmptyObject := Obj(map[])

  /** The value at a path of object keys. */
  function At(doc: Json, path: Path): Option<Json>
    decreases |path|
  {
    if path == [] then Some(doc)
    else if doc.Obj? && path[0] in doc.members then At(doc.members[path[0]], path[1..])
    else None
  }

  /** Writing through a reference to the value at a path: that value only is replaced. */
  function Replace(doc: Json, path: Path, x: Json): Json
    requires At(doc, path).Some?
    decreases |path|
  {
    if path == [] then x
    else Obj(doc.members[path[0] := Replace(doc.members[path[0]], path[1..], x)])
  }

  /** Setting a value: fails if something on the way to the last key is not an object. */
  function Set(doc: Json, path: Path, v: Json): Option<Json>
    requires path != []
    decreases |path|
  {
    if !doc.Obj? then None
    else if |path| == 1 then Some(Obj(doc.members[path[0] := v]))
    else
      match Set(Child(doc, path[0]), path[1..], v)
      case None => None
      case Some(child) => Some(Obj(doc.members[path[0] := child]))
  }

  /** The member a step goes to, an empty object if it is missing. */
  function Child(doc: Json, key: string): Json
    requires doc.Obj?
  {
    if key in doc.members then doc.members[key] else EmptyObject
  }

  /** The value reached after `i` steps exists and is not an object. */
  predicate Blocked(doc: Json, path: Path, i: int) {
    0 <= i < |path| && At(doc, path[..i]).Some? && !At(doc, path[..i]).value.Obj?
  }

  // ---------------------------------------------------------------- the document

  datatype Outcome = Ok | EmptyKey | SegmentNotObject(segment: string) | DestinationNotObject

  class Document {
    var root: Json

    constructor (root: Json)
      ensures this.root == root
    {
      this.root := root;
    }

    /** `upsert_json_value` with the value already read. */
    method Upsert(v: Json, key: string) returns (r: Outcome)
      modifies this
      ensures r == EmptyKey <==> Segments(key) == []
      ensures r == Ok <==> Segments(key) != [] && Set(old(root), Segments(key), v).Some?
      ensures r == Ok ==> Set(old(root), Segments(key), v) == Some(root)
      ensures r != Ok ==> root == old(root)
      ensures r.SegmentNotObject? ==>
        exists i :: 0 <= i < |Segments(key)| - 1 && Segments(key)[i] == r.segment && Blocked(root, Segments(key), i)
      ensures r == DestinationNotObject ==> Blocked(root, Segments(key), |Segments(key)| - 1)
    {
      var parts := Segments(key);
      if parts == [] {
        return EmptyKey;
      }
      r := Insert(v, parts);
    }

    /** The walk along the segments and the insertion at its end. */
    method Insert(v: Json, parts: Path) returns (r: Outcome)
      requires parts != []
      modifies this
      ensures r != EmptyKey
      ensures r == Ok <==> Set(old(root), parts, v).Some?
      ensures r == Ok ==> Set(old(root), parts, v) == Some(root)
      ensures r != Ok ==> root == old(root)
      ensures r.SegmentNotObject? ==>
        exists i :: 0 <= i < |parts| - 1 && parts[i] == r.segment && Blocked(root, parts, i)
      ensures r == DestinationNotObject ==> Blocked(root, parts, |parts| - 1)
    {
      ghost var start := root;
      var last := |parts| - 1;
      for i := 0 to last
        invariant At(root, parts[..i]).Some?
        invariant Set(root, parts, v) == Set(start, parts, v)
        invariant root == start || At(root, parts[..i]) == Some(EmptyObject)
      {
        var current := At(root, parts[..i]).value;
        if !current.Obj? {
          NotObject(root, parts, i, v);
          return SegmentNotObject(parts[i]);
        }
        Walk(root, parts, i, v);
        if parts[i] !in current.members {
          InsertIsSetAt(root, parts, i, EmptyObject);
          root := Replace(root, parts[..i], Obj(current.members[parts[i] := EmptyObject]));
        }
      }
      assert parts[..last + 1] == parts;
      var parent := At(root, parts[..last]).value;
      if parent.Obj? {
        InsertIsSetAt(root, parts, last, v);
        root := Replace(root, parts[..last], Obj(parent.members[parts[last] := v]));
      } else {
        NotObject(root, parts, last, v);
        return DestinationNotObject;
      }
      return Ok;
    }
  }

  /** A non-object on the way makes the whole update fail. */
  lemma {:induction false} NotObject(doc: Json, path: Path, i: nat, v: Json)
    requires Blocked(doc, path, i)
    ensures Set(doc, path, v) == None
    decreases i
  {
    if i > 0 {
      assert path[..i][1..] == path[1..][..i - 1];
      NotObject(doc.members[path[0]], path[1..], i - 1, v);
    }
  }

  /** Inserting a member through a reference to an object is the update one key further. */
  lemma {:induction false} InsertIsSet(doc: Json, path: Path, key: string, v: Json)
    requires At(doc, path).Some? && At(doc, path).value.Obj?
    ensures Set(doc, path + [key], v) == Some(Replace(doc, path, Obj(At(doc, path).value.members[key := v])))
    decreases |path|
  {
    if path != [] {
      assert (path + [key])[0] == path[0] && (path + [key])[1..] == path[1..] + [key];
      InsertIsSet(doc.members[path[0]], path[1..], key, v);
    }
  }

  lemma InsertIsSetAt(doc: Json, parts: Path, i: nat, v: Json)
    requires i < |parts| && At(doc, parts[..i]).Some? && At(doc, parts[..i]).value.Obj?
    ensures Set(doc, parts[..i + 1], v) ==
      Some(Replace(doc, parts[..i], Obj(At(doc, parts[..i]).value.members[parts[i] := v])))
  {
    InsertIsSet(doc, parts[..i], parts[i], v);
    assert parts[..i] + [parts[i]] == parts[..i + 1];
  }

  /** One step of the walk: creating the missing object changes nothing about the final result. */
  lemma {:induction false} Walk(doc: Json, path: Path, i: nat, v: Json)
    requires i + 1 < |path| && At(doc, path[..i]).Some? && At(doc, path[..i]).value.Obj?
    ensures var current := At(doc, path[..i]).value;
      if path[i] in current.members then At(doc, path[..i + 1]) == Some(current.members[path[i]])
      else
        && Set(doc, path[..i + 1], EmptyObject).Some?
        && var doc' := Set(doc, path[..i + 1], EmptyObject).value;
           At(doc', path[..i + 1]) == Some(EmptyObject) && Set(doc', path, v) == Set(doc, path, v)
    decreases i
  {
    if i == 0 {
      assert path[..0] == [] && path[..1] == [path[0]] && path[..1][1..] == [];
      if path[0] !in doc.members {
        Rewritten(doc, path, EmptyObject, v);
      }
    } else {
      var child := doc.members[path[0]];
      assert path[..i][1..] == path[1..][..i - 1] && path[..i + 1][1..] == path[1..][..i];
      assert path[..i][0] == path[0] && path[..i + 1][0] == path[0];
      Walk(child, path[1..], i - 1, v);
      if path[i] !in At(doc, path[..i]).value.members {
        Rewritten(doc, path, Set(child, path[1..][..i], EmptyObject).value, v);
      }
    }
  }

  /** Replacing the first member on the path beforehand only matters for what lies below it. */
  lemma Rewritten(doc: Json, path: Path, child: Json, v: Json)
    requires doc.Obj? && |path| > 1
    requires Set(child, path[1..], v) == Set(Child(doc, path[0]), path[1..], v)
    ensures Set(Obj(doc.members[path[0] := child]), path, v) == Set(doc, path, v)
  {
    var doc' := Obj(doc.members[path[0] := child]);
    assert Child(doc', path[0]) == child;
    var r := Set(child, path[1..], v);
    if r.Some? {
      Overwrite(doc.members, path[0], child, r.value);
    }
  }

  lemma Overwrite<K, V>(m: map<K, V>, k: K, a: V, b: V)
    ensures m[k := a][k := b] == m[k := b]
  {
  }

  // ---------------------------------------------------------------- update laws

  predicate Comparable(p: Path, q: Path) {
    p <= q || q <= p
  }

  /** An update succeeds if and only if every existing value on the way to the last key is an object. */
  lemma {:induction false} SetSucceedsIff(doc: Json, path: Path, v: Json)
    requires path != []
    ensures Set(doc, path, v).Some? <==>
      forall i :: 0 <= i < |path| && At(doc, path[..i]).Some? ==> At(doc, path[..i]).value.Obj?
    decreases |path|
  {
    assert path[..0] == [];
    if Set(doc, path, v).Some? {
      forall i | 0 <= i < |path| && At(doc, path[..i]).Some? ensures At(doc, path[..i]).value.Obj? {
        if !At(doc, path[..i]).value.Obj? {
          NotObject(doc, path, i, v);
        }
      }
    } else if doc.Obj? && |path| > 1 && path[0] in doc.members {
      SetSucceedsIff(doc.members[path[0]], path[1..], v);
      var i :| 0 <= i < |path| - 1 && At(doc.members[path[0]], path[1..][..i]).Some?
            && !At(doc.members[path[0]], path[1..][..i]).value.Obj?;
      assert path[..i + 1][1..] == path[1..][..i];
    } else if doc.Obj? && |path| > 1 {
      SetInEmpty(path[1..], v);
    }
  }

  lemma {:induction false} SetInEmpty(path: Path, v: Json)
    requires path != []
    ensures Set(EmptyObject, path, v).Some?
    decreases |path|
  {
    if |path| > 1 {
      SetInEmpty(path[1..], v);
    }
  }

  /**
    Everything a successful update does: at and below the path there is the new value, every shorter
    prefix is an object, and every other path, existing or not, looks as before.
   */
  lemma {:induction false} LookupAfter(doc: Json, path: Path, v: Json, q: Path)
    requires path != [] && Set(doc, path, v).Some?
    ensures var doc' := Set(doc, path, v).value;
      && (path <= q ==> At(doc', q) == At(v, q[|path|..]))
      && (q < path ==> At(doc', q).Some? && At(doc', q).value.Obj?)
      && (!Comparable(path, q) ==> At(doc', q) == At(doc, q))
    decreases |path|
  {
    var doc' := Set(doc, path, v).value;
    if q == [] {
      assert q < path;
    } else if path[0] != q[0] {
    } else if |path| == 1 {
      assert path <= q;
    } else {
      var child := Child(doc, path[0]);
      LookupAfter(child, path[1..], v, q[1..]);
      assert path <= q <==> path[1..] <= q[1..];
      assert q < path <==> q[1..] < path[1..];
      if path <= q {
        assert q[1..][|path[1..]|..] == q[|path|..];
      }
      if !Comparable(path, q) && path[0] !in doc.members {
        assert At(child, q[1..]) == None;
      }
    }
  }

  /** A second update at the same path wins. */
  lemma {:induction false} SetTwice(doc: Json, path: Path, v: Json, w: Json)
    requires path != [] && Set(doc, path, v).Some?
    ensures Set(Set(doc, path, v).value, path, w) == Set(doc, path, w)
    decreases |path|
  {
    if |path| > 1 {
      var child := Child(doc, path[0]);
      SetTwice(child, path[1..], v, w);
      Rewritten(doc, path, Set(child, path[1..], v).value, w);
    } else {
      assert doc.members[path[0] := v][path[0] := w] == doc.members[path[0] := w];
    }
  }

  /** Putting back what is there changes nothing. */
  lemma {:induction false} SetSame(doc: Json, path: Path, v: Json)
    requires path != [] && At(doc, path) == Some(v)
    ensures Set(doc, path, v) == Some(doc)
    decreases |path|
  {
    if |path| > 1 {
      SetSame(doc.members[path[0]], path[1..], v);
      assert doc.members[path[0] := doc.members[path[0]]] == doc.members;
    } else {
      assert path[1..] == [];
      assert doc.members[path[0] := v] == doc.members;
    }
  }

  /** What the caller is left with: the updated document, or the old one after an error. */
  function Apply(doc: Json, path: Path, v: Json): Json
    requires path != []
  {
    match Set(doc, path, v) case Some(doc') => doc' case None => doc
  }

  /** Neither order nor success of two updates affects the other. */
  ghost predicate Independent(doc: Json, p: Path, q: Path, v: Json, w: Json)
    requires p != [] && q != []
  {
    && Apply(Apply(doc, p, v), q, w) == Apply(Apply(doc, q, w), p, v)
    && (Set(Apply(doc, p, v), q, w).Some? <==> Set(doc, q, w).Some?)
    && (Set(Apply(doc, q, w), p, v).Some? <==> Set(doc, p, v).Some?)
  }

  /** Updates at incomparable paths commute, failures included. */
  lemma {:induction false} UpdatesCommute(doc: Json, p: Path, q: Path, v: Json, w: Json)
    requires p != [] && q != [] && !Comparable(p, q)
    ensures Independent(doc, p, q, v, w)
    decreases |p|
  {
    if doc.Obj? {
      if p[0] != q[0] {
        CommuteApart(doc, p, q, v, w);
      } else {
        assert |p| > 1 && |q| > 1 && !Comparable(p[1..], q[1..]);
        UpdatesCommute(Child(doc, p[0]), p[1..], q[1..], v, w);
        CommuteBelow(doc, p, q, v, w);
      }
    }
  }

  /** The member an update puts below the root, if it succeeds. */
  function NewMember(doc: Json, p: Path, v: Json): Option<Json>
    requires doc.Obj? && p != []
  {
    if |p| == 1 then Some(v) else Set(Child(doc, p[0]), p[1..], v)
  }

  /** An update only replaces the first member on its path. */
  lemma ApplyMember(doc: Json, p: Path, v: Json)
    requires doc.Obj? && p != []
    ensures Set(doc, p, v).Some? <==> NewMember(doc, p, v).Some?
    ensures Apply(doc, p, v) ==
      match NewMember(doc, p, v) case Some(x) => Obj(doc.members[p[0] := x]) case None => doc
  {
  }

  lemma CommuteApart(doc: Json, p: Path, q: Path, v: Json, w: Json)
    requires doc.Obj? && p != [] && q != [] && p[0] != q[0]
    ensures Independent(doc, p, q, v, w)
  {
    var a, b := Apply(doc, p, v), Apply(doc, q, w);
    ApplyMember(doc, p, v);
    ApplyMember(doc, q, w);
    assert NewMember(a, q, w) == NewMember(doc, q, w);
    assert NewMember(b, p, v) == NewMember(doc, p, v);
    ApplyMember(a, q, w);
    ApplyMember(b, p, v);
    assert Apply(a, q, w).members == Apply(b, p, v).members;
  }

  lemma CommuteBelow(doc: Json, p: Path, q: Path, v: Json, w: Json)
    requires doc.Obj? && |p| > 1 && |q| > 1 && p[0] == q[0]
    requires Independent(Child(doc, p[0]), p[1..], q[1..], v, w)
    ensures Independent(doc, p, q, v, w)
  {
    var k, child := p[0], Child(doc, p[0]);
    var a, b := Apply(doc, p, v), Apply(doc, q, w);
    ApplyMember(doc, p, v);
    ApplyMember(doc, q, w);
    ChildAfter(doc, p, v);
    ChildAfter(doc, q, w);
    ApplyMember(a, q, w);
    ApplyMember(b, p, v);
    assert Apply(a, q, w).members == Apply(b, p, v).members;
  }

  lemma ChildAfter(doc: Json, p: Path, v: Json)
    requires doc.Obj? && |p| > 1
    ensures Apply(doc, p, v).Obj? && Child(Apply(doc, p, v), p[0]) == Apply(Child(doc, p[0]), p[1..], v)
  {
    ApplyMember(doc, p, v);
  }

  // ---------------------------------------------------------------- keys

  /** `str::split('.')` */
  function Split(s: string): (r: seq<string>)
    ensures r != []
  {
    if s == "" then [""]
    else if s[0] == '.' then [""] + Split(s[1..])
    else
      var rest := Split(s[1..]);
      [[s[0]] + rest[0]] + rest[1..]
  }

  function NonEmpty(parts: seq<string>): seq<string> {
    if parts == [] then []
    else (if parts[0] == "" then [] else [parts[0]]) + NonEmpty(parts[1..])
  }

  /** `canonicalize_json_path` */
  function Canonical(key: string): string {
    if key != "" && key[0] == '$' then key else "$" + key
  }

  /** The dotted part of a key: after "$." of the canonical form, or the key itself. */
  function Body(key: string): string {
    if "$." <= Canonical(key) then Canonical(key)[2..] else key
  }

  function Segments(key: string): seq<string> {
    NonEmpty(Split(Body(key)))
  }

  predicate Segment(s: string) {
    s != "" && '.' !in s
  }

  function Join(parts: seq<string>): string
    requires parts != []
  {
    if |parts| == 1 then parts[0] else parts[0] + "." + Join(parts[1..])
  }

  predicate AllDots(s: string) {
    forall i :: 0 <= i < |s| ==> s[i] == '.'
  }

  lemma {:induction false} NoSegmentsIff(s: string)
    ensures NonEmpty(Split(s)) == [] <==> AllDots(s)
  {
    if s != "" {
      NoSegmentsIff(s[1..]);
      if s[0] == '.' {
        assert Split(s)[1..] == Split(s[1..]);
        assert AllDots(s) <==> AllDots(s[1..]);
      }
    } else {
      assert [""][1..] == [];
    }
  }

  lemma {:induction false} SplitSegment(a: string, rest: string)
    requires '.' !in a
    ensures Split(a + "." + rest) == [a] + Split(rest)
    ensures Split(a) == [a]
  {
    if a == "" {
      assert a + "." + rest == "." + rest && ("." + rest)[1..] == rest;
    } else {
      var s := a + "." + rest;
      assert s[1..] == a[1..] + "." + rest;
      SplitSegment(a[1..], rest);
      assert [a[0]] + a[1..] == a;
      assert ([a[1..]] + Split(rest))[1..] == Split(rest);
    }
  }

  lemma {:induction false} SplitJoin(parts: seq<string>)
    requires parts != [] && forall i :: 0 <= i < |parts| ==> Segment(parts[i])
    ensures NonEmpty(Split(Join(parts))) == parts
    decreases |parts|
  {
    SplitSegment(parts[0], "");
    if |parts| == 1 {
      assert [parts[0]][1..] == [];
    } else {
      SplitSegment(parts[0], Join(parts[1..]));
      SplitJoin(parts[1..]);
      NonEmptyCons(parts[0], Split(Join(parts[1..])));
      assert [parts[0]] + parts[1..] == parts;
    }
  }

  /** The parts that are not empty, in order. */
  function Kept(parts: seq<string>): seq<string> {
    if parts == [] then []
    else Kept(parts[..|parts| - 1]) + if parts[|parts| - 1] != "" then [parts[|parts| - 1]] else []
  }

  lemma {:induction false} NonEmptyKept(front: seq<string>, parts: seq<string>)
    ensures Kept(front + parts) == Kept(front) + NonEmpty(parts)
    decreases |parts|
  {
    if parts == [] {
      assert front + parts == front;
    } else {
      var first, rest := parts[0], parts[1..];
      assert front + parts == front + [first] + rest;
      NonEmptyKept(front + [first], rest);
      KeptSnoc(front, first);
      Associative(Kept(front), if first != "" then [first] else [], NonEmpty(rest));
    }
  }

  lemma KeptSnoc(parts: seq<string>, last: string)
    ensures Kept(parts + [last]) == Kept(parts) + if last != "" then [last] else []
  {
    assert (parts + [last])[..|parts|] == parts;
  }

  lemma Associative<T>(a: seq<T>, b: seq<T>, c: seq<T>)
    ensures a + b + c == a + (b + c)
  {
  }

  lemma {:induction false} SplitParts(parts: seq<string>)
    requires parts != [] && forall i :: 0 <= i < |parts| ==> '.' !in parts[i]
    ensures Split(Join(parts)) == parts
    decreases |parts|
  {
    SplitSegment(parts[0], "");
    if |parts| > 1 {
      SplitSegment(parts[0], Join(parts[1..]));
      SplitParts(parts[1..]);
      assert [parts[0]] + parts[1..] == parts;
    }
  }

  /** A rooted key names the path of its non-empty parts: several dots in a row count as one. */
  lemma RootedKeyPath(parts: seq<string>)
    requires parts != [] && forall i :: 0 <= i < |parts| ==> '.' !in parts[i]
    ensures Segments("$." + Join(parts)) == Kept(parts)
  {
    SplitParts(parts);
    RootedBody(Join(parts));
    NonEmptyKept([], parts);
    assert [] + parts == parts && Kept([]) + NonEmpty(parts) == NonEmpty(parts);
  }

  lemma NonEmptyCons(first: string, rest: seq<string>)
    requires first != ""
    ensures NonEmpty([first] + rest) == [first] + NonEmpty(rest)
  {
    assert ([first] + rest)[1..] == rest;
  }

  /** What a bare key of several segments starts with. */
  lemma JoinStarts(parts: seq<string>)
    requires parts != [] && forall i :: 0 <= i < |parts| ==> Segment(parts[i])
    ensures var key := Join(parts);
      && key != "" && key[0] != '.' && key[0] == parts[0][0]
      && ("$." <= key <==> |parts| > 1 && parts[0] == "$")
      && ("$." <= key ==> key[2..] == Join(parts[1..]))
  {
    var key, first := Join(parts), parts[0];
    assert Segment(first) && first[0] != '.';
    if |parts| > 1 {
      JoinHead(first, Join(parts[1..]));
    } else if |first| > 1 {
      assert first[1] != '.';
    }
  }

  lemma JoinHead(first: string, rest: string)
    requires Segment(first)
    ensures var key := first + "." + rest;
      && key[0] == first[0] && ("$." <= key <==> first == "$") && (first == "$" ==> key[2..] == rest)
  {
    var key := first + "." + rest;
    if |first| > 1 {
      assert key[1] == first[1] && first[1] != '.';
    } else {
      assert key[1] == '.' && key[2..] == rest && first == [first[0]];
    }
  }

  /** Rooted keys name every path; bare keys name a path unless it has several segments of which the
      first is a lone "$". */
  lemma KeysNamePaths(parts: seq<string>)
    requires parts != [] && forall i :: 0 <= i < |parts| ==> Segment(parts[i])
    ensures Segments("$." + Join(parts)) == parts
    ensures Segments(Join(parts)) == parts <==> |parts| == 1 || parts[0] != "$"
  {
    var key := Join(parts);
    SplitJoin(parts);
    RootedBody(key);
    BareBody(parts);
    if |parts| > 1 && parts[0] == "$" {
      SplitJoin(parts[1..]);
    }
  }

  lemma RootedBody(key: string)
    ensures Body("$." + key) == key
  {
    assert ("$." + key)[2..] == key;
  }

  lemma BareBody(parts: seq<string>)
    requires parts != [] && forall i :: 0 <= i < |parts| ==> Segment(parts[i])
    ensures Body(Join(parts)) == if |parts| > 1 && parts[0] == "$" then Join(parts[1..]) else Join(parts)
  {
    var key := Join(parts);
    JoinStarts(parts);
    if key[0] != '$' {
      assert ("$" + key)[1] == key[0];
    }
  }

  /** Which keys are rejected as empty. A lone "$" is not among them, although the message says so. */
  lemma EmptyKeyIff(key: string)
    ensures Segments(key) == [] <==> AllDots(key) || ("$." <= key && AllDots(key[2..]))
  {
    NoSegmentsIff(Body(key));
    BodyCases(key);
    if key != "" && key[0] == '.' {
      assert forall i :: 1 <= i < |key| ==> key[i] == key[1..][i - 1];
    }
  }

  lemma BodyCases(key: string)
    ensures Body(key) == if "$." <= key then key[2..] else if key != "" && key[0] == '.' then key[1..] else key
  {
    if key != "" && key[0] != '$' {
      assert Canonical(key)[1] == key[0] && Canonical(key)[2..] == key[1..];
    }
  }

  /** So a lone "$" is a key like any other. */
  lemma DollarIsAKey(key: string)
    requires |key| == 1 && key[0] == '$'
    ensures Segments(key) == [key]
  {
    SplitSegment(key, "");
    assert Body(key) == key && Split(key) == [key];
    assert [key][1..] == [] && NonEmpty([]) == [];
  }
}
