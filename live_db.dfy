/** The client replica of frontend/src/live_db.tsx: a WebSocket handler that
    mirrors the server's path-addressed change messages into a nested object.

    The replica is a tree of `Node`s. A decoded JSON object is an `Object`
    (so a decoded record can itself be walked into, as the JavaScript does),
    anything else is an opaque `Leaf` holding its JSON text. The handler
    receives the message with `Data` already decoded into a `Node`. */
module LiveDb {
  import opened Wrappers

  datatype Node = Leaf(json: string) | Object(fields: map<string, Node>)

  /** One frame of the stream: `Type`, `Path`, decoded `Data`, `Source_name`. */
  datatype Message = Message(kind: string, path: string, data: Node, sourceName: string)

  // ---------------------------------------------------------------------
  // Paths: `Path.split("/")`, then `.slice(1, -1)` and `.pop()`

  /** `s.split("/")`: the maximal slash-free pieces, always at least one. */
  function Split(s: string): (parts: seq<string>)
    ensures |parts| >= 1
    ensures forall i :: 0 <= i < |parts| ==> '/' !in parts[i]
    decreases |s|
  {
    if s == [] then [""]
    else
      var rest := Split(s[1..]);
      if s[0] == '/' then [""] + rest
      else [[s[0]] + rest[0]] + rest[1..]
  }

  /** `parts.join("/")`, the inverse of `Split`. */
  function Join(parts: seq<string>): string
    requires |parts| >= 1
    decreases |parts|
  {
    if |parts| == 1 then parts[0] else parts[0] + "/" + Join(parts[1..])
  }

  /** `split("/").slice(1, -1)`: every segment but the first and the last. */
  function ContainerKeys(path: string): seq<string> {
    var segments := Split(path);
    if |segments| >= 2 then segments[1..|segments| - 1] else []
  }

  /** `split("/").pop()`: the last segment. */
  function TargetKey(path: string): string {
    var segments := Split(path);
    segments[|segments| - 1]
  }

  lemma {:induction false} JoinSplit(s: string)
    ensures Join(Split(s)) == s
    decreases |s|
  {
    if s != [] {
      JoinSplit(s[1..]);
      var rest := Split(s[1..]);
      if s[0] == '/' {
        assert s == "/" + s[1..];
      } else if |rest| == 1 {
        assert s == [s[0]] + s[1..];
      } else {
        assert Join(rest) == rest[0] + "/" + Join(rest[1..]);
        var parts := [[s[0]] + rest[0]] + rest[1..];
        assert parts[1..] == rest[1..];
        assert s == [s[0]] + s[1..];
      }
    }
  }

  lemma {:induction false} SplitSlashFree(a: string)
    requires '/' !in a
    ensures Split(a) == [a]
    decreases |a|
  {
    if a != [] {
      SplitSlashFree(a[1..]);
      assert [a[0]] + a[1..] == a;
    }
  }

  lemma {:induction false} SplitAfterSegment(a: string, b: string)
    requires '/' !in a
    ensures Split(a + "/" + b) == [a] + Split(b)
    decreases |a|
  {
    if a == [] {
      assert ("" + "/" + b)[1..] == b;
    } else {
      SplitAfterSegment(a[1..], b);
      assert (a + "/" + b)[1..] == a[1..] + "/" + b;
      assert [a[0]] + a[1..] == a;
    }
  }

  lemma {:induction false} SplitJoin(parts: seq<string>)
    requires |parts| >= 1
    requires forall i :: 0 <= i < |parts| ==> '/' !in parts[i]
    ensures Split(Join(parts)) == parts
    decreases |parts|
  {
    if |parts| == 1 {
      SplitSlashFree(parts[0]);
    } else {
      SplitJoin(parts[1..]);
      SplitAfterSegment(parts[0], Join(parts[1..]));
      assert [parts[0]] + parts[1..] == parts;
    }
  }

  /** A path `/k1/.../kn/t` built from slash-free segments has container keys
      `k1..kn` and target key `t`; with n = 0 the target is a root key. */
  lemma PathSegments(keys: seq<string>, target: string)
    requires forall i :: 0 <= i < |keys| ==> '/' !in keys[i]
    requires '/' !in target
    ensures ContainerKeys("/" + Join(keys + [target])) == keys
    ensures TargetKey("/" + Join(keys + [target])) == target
  {
    SplitOfPath(keys, target);
    SegmentsOfSplit("/" + Join(keys + [target]), keys, target);
  }

  /** Splitting `/k1/.../kn/t` gives the empty leading segment and then the segments. */
  lemma SplitOfPath(keys: seq<string>, target: string)
    requires forall i :: 0 <= i < |keys| ==> '/' !in keys[i]
    requires '/' !in target
    ensures Split("/" + Join(keys + [target])) == [""] + keys + [target]
  {
    SlashFreeSnoc(keys, target);
    SplitRooted(keys + [target]);
  }

  lemma SlashFreeSnoc(keys: seq<string>, target: string)
    requires forall i :: 0 <= i < |keys| ==> '/' !in keys[i]
    requires '/' !in target
    ensures forall i :: 0 <= i < |keys + [target]| ==> '/' !in (keys + [target])[i]
  {
  }

  lemma SplitRooted(segments: seq<string>)
    requires |segments| >= 1
    requires forall i :: 0 <= i < |segments| ==> '/' !in segments[i]
    ensures Split("/" + Join(segments)) == [""] + segments
  {
    var parts := [""] + segments;
    forall i | 0 <= i < |parts| ensures '/' !in parts[i] {
      if i > 0 { assert parts[i] == segments[i - 1]; }
    }
    JoinWithEmptyHead(segments);
    SplitJoin(parts);
  }

  lemma SegmentsOfSplit(path: string, keys: seq<string>, target: string)
    requires Split(path) == [""] + keys + [target]
    ensures ContainerKeys(path) == keys && TargetKey(path) == target
  {
    var parts := [""] + keys + [target];
    assert parts[1..|parts| - 1] == keys;
  }

  lemma JoinWithEmptyHead(segments: seq<string>)
    requires |segments| >= 1
    ensures Join([""] + segments) == "/" + Join(segments)
  {
    assert ([""] + segments)[1..] == segments;
  }

  // ---------------------------------------------------------------------
  // Walking the tree

  /** `current[key]`: the member when `current` is an object holding `key`,
      otherwise `undefined` (`None`). */
  function Member(n: Node, key: string): Option<Node> {
    match n
    case Object(f) => if key in f then Some(f[key]) else None
    case Leaf(_) => None
  }

  /** The node reached by following `path` member by member, if any. */
  function Lookup(n: Node, path: seq<string>): Option<Node>
    decreases |path|
  {
    if path == [] then Some(n)
    else
      match Member(n, path[0])
      case None => None
      case Some(child) => Lookup(child, path[1..])
  }

  /** Walking `keys` from `n` ends at an object, the only thing a property can be set on. */
  predicate ReachesObject(n: Node, keys: seq<string>) {
    Lookup(n, keys).Some? && Lookup(n, keys).value.Object?
  }

  lemma {:induction false} LookupAppend(n: Node, p: seq<string>, q: seq<string>)
    ensures Lookup(n, p + q) == if Lookup(n, p).None? then None else Lookup(Lookup(n, p).value, q)
    decreases |p|
  {
    if p == [] {
      assert p + q == q;
    } else {
      assert (p + q)[0] == p[0] && (p + q)[1..] == p[1..] + q;
      match Member(n, p[0])
      case None =>
      case Some(child) => LookupAppend(child, p[1..], q);
    }
  }

  /** The tree after `reached[target] = d`, where `reached` is the object found at `keys`. */
  function SetAt(n: Node, keys: seq<string>, target: string, d: Node): Node
    requires ReachesObject(n, keys)
    decreases |keys|
  {
    if keys == [] then Object(n.fields[target := d])
    else Object(n.fields[keys[0] := SetAt(n.fields[keys[0]], keys[1..], target, d)])
  }

  // ---------------------------------------------------------------------
  // The message handler

  /** The effect of one message on the replica: `Ok` of the new tree, or
      `Err` when the handler throws (the tree is then left as it was). */
  function Apply(root: Node, m: Message): Result<Node, string> {
    if m.kind == "add" then
      var keys := ContainerKeys(m.path);
      if ReachesObject(root, keys) then Ok(SetAt(root, keys, TargetKey(m.path), m.data))
      else Err("TypeError: cannot set a property of undefined")
    else if m.kind == "remove" then Ok(root)  // only logged
    else if m.kind == "update" then Ok(root)  // only logged
    else Ok(root)                             // default: unknown type, also the initial load
  }

  lemma {:induction false} SetAtReached(n: Node, keys: seq<string>, target: string, d: Node)
    requires ReachesObject(n, keys)
    ensures ReachesObject(SetAt(n, keys, target, d), keys)
    ensures Lookup(SetAt(n, keys, target, d), keys)
            == Some(Object(Lookup(n, keys).value.fields[target := d]))
    decreases |keys|
  {
    if keys != [] {
      SetAtReached(n.fields[keys[0]], keys[1..], target, d);
    }
  }

  lemma {:induction false} SetAtFrame(n: Node, keys: seq<string>, target: string, d: Node, p: seq<string>)
    requires ReachesObject(n, keys)
    ensures !(keys + [target] <= p) && !(p <= keys + [target])
            ==> Lookup(SetAt(n, keys, target, d), p) == Lookup(n, p)
    ensures keys + [target] <= p
            ==> Lookup(SetAt(n, keys, target, d), p) == Lookup(d, p[|keys| + 1..])
    decreases |keys|
  {
    var full := keys + [target];
    if p != [] {
      if keys == [] {
        if p[0] == target {
          assert p[1..] == p[|keys| + 1..];
        } else {
          assert !(full <= p);
        }
      } else if p[0] != keys[0] {
        assert !(full <= p) && !(p <= full);
      } else {
        SetAtFrame(n.fields[keys[0]], keys[1..], target, d, p[1..]);
        assert full[1..] == keys[1..] + [target];
        assert full <= p <==> keys[1..] + [target] <= p[1..];
        assert p <= full <==> p[1..] <= keys[1..] + [target];
        if full <= p {
          assert p[1..][|keys[1..]| + 1..] == p[|keys| + 1..];
        }
      }
    }
  }

  lemma {:induction false} SetAtTwice(n: Node, keys: seq<string>, target: string, d: Node)
    requires ReachesObject(n, keys)
    ensures ReachesObject(SetAt(n, keys, target, d), keys)
    ensures SetAt(SetAt(n, keys, target, d), keys, target, d) == SetAt(n, keys, target, d)
    decreases |keys|
  {
    SetAtReached(n, keys, target, d);
    if keys != [] {
      SetAtTwice(n.fields[keys[0]], keys[1..], target, d);
    }
  }

  /** An `"add"` succeeds exactly when its container keys lead from the root to
      an object; no missing container is created. It then sets the target key
      of that object to the data, and the root stays an object. */
  lemma ApplyAdd(root: Node, m: Message)
    requires m.kind == "add"
    ensures Apply(root, m).Ok? <==> ReachesObject(root, ContainerKeys(m.path))
    ensures Apply(root, m).Err? ==> !ReachesObject(root, ContainerKeys(m.path))
    ensures Apply(root, m).Ok? ==>
              var keys, target := ContainerKeys(m.path), TargetKey(m.path);
              && Lookup(Apply(root, m).value, keys)
                 == Some(Object(Lookup(root, keys).value.fields[target := m.data]))
              && Lookup(Apply(root, m).value, keys + [target]) == Some(m.data)
              && (root.Object? ==> Apply(root, m).value.Object?)
  {
    var keys, target := ContainerKeys(m.path), TargetKey(m.path);
    if ReachesObject(root, keys) {
      var r := SetAt(root, keys, target, m.data);
      SetAtReached(root, keys, target, m.data);
      LookupAppend(r, keys, [target]);
    }
  }

  /** An `"add"` changes nothing outside the target: a path that is neither a
      prefix nor an extension of `keys + [target]` keeps its node, and a path
      below the target now reads inside the data. */
  lemma ApplyAddFrame(root: Node, m: Message, p: seq<string>)
    requires m.kind == "add" && Apply(root, m).Ok?
    ensures var full := ContainerKeys(m.path) + [TargetKey(m.path)];
            && (!(full <= p) && !(p <= full) ==> Lookup(Apply(root, m).value, p) == Lookup(root, p))
            && (full <= p ==> Lookup(Apply(root, m).value, p) == Lookup(m.data, p[|full|..]))
  {
    SetAtFrame(root, ContainerKeys(m.path), TargetKey(m.path), m.data, p);
  }

  /** Applying the same message twice gives the tree after applying it once. */
  lemma ApplyIdempotent(root: Node, m: Message)
    requires Apply(root, m).Ok?
    ensures Apply(Apply(root, m).value, m) == Apply(root, m)
  {
    if m.kind == "add" {
      SetAtTwice(root, ContainerKeys(m.path), TargetKey(m.path), m.data);
    }
  }

  /** `"add"` at a one-segment path `/t` writes key `t` of the root itself. */
  lemma ApplyAddAtRoot(root: Node, target: string, d: Node, source: string)
    requires root.Object? && '/' !in target
    ensures Apply(root, Message("add", "/" + target, d, source)) == Ok(Object(root.fields[target := d]))
  {
    PathSegments([], target);
    assert [] + [target] == [target];
  }

  /** Only `"add"` can change the replica; every other type leaves it as it is. */
  lemma ApplyOtherKinds(root: Node, m: Message)
    requires m.kind != "add"
    ensures Apply(root, m) == Ok(root)
  {
  }

  /** There is no auto-creation of containers: adding `/a/b/c` to an empty
      replica throws instead of building `a` and `b`. */
  lemma AddToEmptyThrows(d: Node)
    ensures Apply(Object(map[]), Message("add", "/a/b/c", d, "")).Err?
  {
    assert "/a/b/c" == "" + "/" + "a/b/c";
    SplitAfterSegment("", "a/b/c");
    assert "a/b/c" == "a" + "/" + "b/c";
    SplitAfterSegment("a", "b/c");
    assert "b/c" == "b" + "/" + "c";
    SplitAfterSegment("b", "c");
    SplitSlashFree("c");
    assert Split("/a/b/c") == ["", "a", "b", "c"];
    assert ContainerKeys("/a/b/c") == ["a", "b"];
    assert Lookup(Object(map[]), ["a", "b"]) == None;
  }

  /** The object that `createMutable({})` wraps, updated by `syncMessagesInto`. */
  class Receiver {
    var root: Node

    ghost predicate Valid()
      reads this
    {
      root.Object?
    }

    /** `live_db` starts every replica as an empty object. */
    constructor ()
      ensures Valid() && root == Object(map[])
    {
      root := Object(map[]);
    }

    /** `syncMessagesInto(receiver)(event)` for an already decoded frame. */
    method Handle(m: Message) returns (o: Outcome<string>)
      requires Valid()
      modifies this
      ensures Valid()
      ensures Apply(old(root), m).Ok? ==> o == Pass && root == Apply(old(root), m).value
      ensures Apply(old(root), m).Err? ==> o.Fail? && root == old(root)
    {
      if m.kind == "add" {
        var current: Option<Node> := Some(root);
        var keys := ContainerKeys(m.path);
        var lastKey := TargetKey(m.path);
        var i := 0;
        while i < |keys|
          invariant 0 <= i <= |keys|
          invariant root == old(root)
          invariant current == Lookup(root, keys[..i])
        {
          if current.None? {
            // `undefined[key]` throws
            LookupAppend(root, keys[..i], keys[i..]);
            assert keys[..i] + keys[i..] == keys;
            return Fail("TypeError: cannot read a property of undefined");
          }
          LookupAppend(root, keys[..i], [keys[i]]);
          assert keys[..i] + [keys[i]] == keys[..i + 1];
          current := Member(current.value, keys[i]);
          i := i + 1;
        }
        assert keys[..i] == keys;
        if current.Some? && current.value.Object? {
          ApplyAdd(root, m);
          root := SetAt(root, keys, lastKey, m.data);
          o := Pass;
        } else {
          o := Fail("TypeError: cannot set a property of undefined");
        }
      } else if m.kind == "remove" {
        o := Pass;
      } else if m.kind == "update" {
        o := Pass;
      } else {
        o := Pass;
      }
    }
  }
}
