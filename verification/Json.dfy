/** JSON values, reading them by path, and the two ways a configuration is changed: merging
    another value over it, and setting one path. */
module Json {
  import opened Outcome

  datatype Json =
    | Null
    | Bool(flag: bool)
    | Num(number: real)
    | Str(text: string)
    | Arr(items: seq<Json>)
    | Obj(fields: map<string, Json>)

  type Path = seq<string>

  function Get(j: Json, path: Path): Option<Json> {
    if path == [] then Some(j)
    else if j.Obj? && path[0] in j.fields then Get(j.fields[path[0]], path[1..])
    else None
  }

  function FieldOrNull(j: Json, k: string): Json {
    if j.Obj? && k in j.fields then j.fields[k] else Null
  }

  function GetOrNull(j: Json, path: Path): Json {
    match Get(j, path) case None => Null case Some(v) => v
  }

  /** Some proper prefix of the path ends in a value that is no object. */
  predicate Blocked(j: Json, path: Path) {
    path != [] && (!j.Obj? || (path[0] in j.fields && Blocked(j.fields[path[0]], path[1..])))
  }

  // ---- Merging ----

  /** `src` merged over `dst`: objects key by key, anything else replaced. */
  function Merged(dst: Json, src: Json): Json
    decreases src
  {
    if dst.Obj? && src.Obj? then
      Obj(map k | k in dst.fields.Keys + src.fields.Keys ::
            if k in src.fields then Merged(FieldOrNull(dst, k), src.fields[k]) else dst.fields[k])
    else src
  }

  method DeepMerge(dst: Json, src: Json) returns (r: Json)
    ensures r == Merged(dst, src)
    decreases src
  {
    if !dst.Obj? || !src.Obj? {
      return src;
    }
    var out, todo := dst.fields, src.fields.Keys;
    while todo != {}
      invariant todo <= src.fields.Keys
      invariant out.Keys == dst.fields.Keys + (src.fields.Keys - todo)
      invariant forall k | k in out ::
                  out[k] == if k in src.fields && k !in todo then Merged(FieldOrNull(dst, k), src.fields[k])
                    else dst.fields[k]
    {
      var k :| k in todo;
      var v := DeepMerge(if k in out then out[k] else Null, src.fields[k]);
      out, todo := out[k := v], todo - {k};
    }
    assert out == Merged(dst, src).fields;
    return Obj(out);
  }

  lemma MergedField(dst: Json, src: Json, path: Path)
    requires path != [] && src.Obj? && path[0] in src.fields
    ensures Merged(dst, src).Obj? && path[0] in Merged(dst, src).fields
    ensures Merged(dst, src).fields[path[0]] == Merged(FieldOrNull(dst, path[0]), src.fields[path[0]])
    ensures GetOrNull(dst, path) == GetOrNull(FieldOrNull(dst, path[0]), path[1..])
    ensures |path| > 1 ==> Get(dst, path) == Get(FieldOrNull(dst, path[0]), path[1..])
  {
  }

  /** What a path reads after a merge: what the source has there merged over what was there, the
      old value where the source says nothing, and nothing below a value that replaced. */
  lemma {:induction false} MergedGet(dst: Json, src: Json, path: Path)
    ensures Get(Merged(dst, src), path)
            == match Get(src, path)
               case Some(v) => Some(Merged(GetOrNull(dst, path), v))
               case None => if Blocked(src, path) then None else Get(dst, path)
    decreases src, path
  {
    if path != [] && src.Obj? && path[0] in src.fields {
      MergedGet(FieldOrNull(dst, path[0]), src.fields[path[0]], path[1..]);
      MergedField(dst, src, path);
    }
  }

  /** Over nothing, merging is copying. */
  lemma MergedSame(j: Json)
    ensures Merged(j, j) == j && Merged(Null, j) == j
    decreases j
  {
    if j.Obj? {
      forall k | k in j.fields ensures Merged(j, j).fields[k] == j.fields[k] {
        MergedSame(j.fields[k]);
      }
      assert Merged(j, j).fields == j.fields;
    }
  }

  /** Merging the same value again changes nothing. */
  lemma {:induction false} MergedIdempotent(dst: Json, src: Json)
    ensures Merged(Merged(dst, src), src) == Merged(dst, src)
    decreases src
  {
    var once := Merged(dst, src);
    if dst.Obj? && src.Obj? {
      var twice := Merged(once, src);
      forall k | k in once.fields ensures k in twice.fields && twice.fields[k] == once.fields[k] {
        if k in src.fields {
          MergedIdempotent(FieldOrNull(dst, k), src.fields[k]);
        }
      }
      assert twice.fields == once.fields;
    } else {
      MergedSame(src);
    }
  }

  // ---- Setting a path ----

  /** The value with `v` set at the path: missing objects are created on the way and other values
      on the way replaced, but a last parent that exists and is no object drops the value. */
  function SetAt(j: Json, path: Path, v: Json): Json
    requires path != []
    decreases |path|
  {
    if |path| == 1 then
      if j.Obj? then Obj(j.fields[path[0] := v]) else j
    else
      var fields := if j.Obj? then j.fields else map[];
      var child := if path[0] in fields then fields[path[0]] else Obj(map[]);
      Obj(fields[path[0] := SetAt(child, path[1..], v)])
  }

  /** The parent of the path exists and is no object. */
  predicate ParentInTheWay(j: Json, path: Path)
    requires path != []
  {
    var parent := Get(j, path[..|path| - 1]);
    parent.Some? && !parent.value.Obj?
  }

  /** A cursor's way back up: the objects above it, each with the key that was followed. */
  function Plug(frames: seq<(map<string, Json>, string)>, j: Json): Json {
    if frames == [] then j
    else
      var (fields, k) := frames[|frames| - 1];
      Plug(frames[..|frames| - 1], Obj(fields[k := j]))
  }

  method SetPath(root: Json, path: Path, v: Json) returns (r: Json)
    requires path != []
    ensures r == SetAt(root, path, v)
  {
    var frames: seq<(map<string, Json>, string)> := [];
    var cur := root;
    for i := 0 to |path| - 1
      invariant Plug(frames, SetAt(cur, path[i..], v)) == SetAt(root, path, v)
    {
      assert path[i..][1..] == path[i + 1..];
      var fields := if cur.Obj? then cur.fields else map[];
      var above := frames;
      frames := frames + [(fields, path[i])];
      cur := if path[i] in fields then fields[path[i]] else Obj(map[]);
      assert frames[..|frames| - 1] == above;
    }
    var part := path[|path| - 1];
    if cur.Obj? {
      cur := Obj(cur.fields[part := v]);
    }
    return Plug(frames, cur);
  }

  lemma ParentBelow(j: Json, path: Path)
    requires |path| > 1
    ensures j.Obj? && path[0] in j.fields ==>
        (ParentInTheWay(j, path) <==> ParentInTheWay(j.fields[path[0]], path[1..]))
    ensures !(j.Obj? && path[0] in j.fields) ==> !ParentInTheWay(j, path)
    ensures !ParentInTheWay(Obj(map[]), path)
  {
    assert path[..|path| - 1][1..] == path[1..][..|path| - 2];
  }

  /** The value can be read back exactly if no last parent was in the way; else nothing changed. */
  lemma {:induction false} SetGet(j: Json, path: Path, v: Json)
    requires path != []
    ensures Get(SetAt(j, path, v), path) == Some(v) <==> !ParentInTheWay(j, path)
    ensures ParentInTheWay(j, path) ==> SetAt(j, path, v) == j
    decreases path
  {
    if |path| > 1 {
      ParentBelow(j, path);
      var fields := if j.Obj? then j.fields else map[];
      var child := if path[0] in fields then fields[path[0]] else Obj(map[]);
      SetGet(child, path[1..], v);
      if |path| > 2 {
        ParentBelow(child, path[1..]);
      }
      if ParentInTheWay(j, path) {
        assert fields[path[0] := fields[path[0]]] == fields;
      }
    }
  }

  /** A value set below a number is dropped. */
  lemma NumberInTheWay(v: Json)
    ensures var j := Obj(map["a" := Num(1.0)]);
            SetAt(j, ["a", "b"], v) == j && Get(SetAt(j, ["a", "b"], v), ["a", "b"]).None?
  {
    var j := Obj(map["a" := Num(1.0)]);
    assert ["a", "b"][1..] == ["b"];
    assert SetAt(Num(1.0), ["b"], v) == Num(1.0);
    assert SetAt(j, ["a", "b"], v).fields == j.fields;
    assert Get(Num(1.0), ["b"]).None?;
  }

  /** Neither path leads through the other. */
  ghost predicate Diverge(p: Path, q: Path) {
    !(p <= q) && !(q <= p)
  }

  /** Every path that diverges from the one set reads as before. */
  lemma {:induction false} SetFrame(j: Json, path: Path, v: Json, other: Path)
    requires path != [] && Diverge(path, other)
    ensures Get(SetAt(j, path, v), other) == Get(j, other)
    decreases path
  {
    if |path| > 1 && other[0] == path[0] {
      var fields := if j.Obj? then j.fields else map[];
      var child := if path[0] in fields then fields[path[0]] else Obj(map[]);
      assert path == [path[0]] + path[1..] && other == [other[0]] + other[1..];
      SetFrame(child, path[1..], v, other[1..]);
    }
  }
}
