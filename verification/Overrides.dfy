/** Operator overrides: a JSON blob merged over a configuration, then single dotted paths set. */
module Overrides {
  import opened Outcome
  import opened Json

  // ---- Text ----

  /** The pieces of a text between separators; at least one, possibly empty. */
  function Split(s: string, sep: char): (parts: seq<string>)
    ensures parts != []
  {
    if s == "" then [""]
    else
      var rest := Split(s[1..], sep);
      if s[0] == sep then [""] + rest else [[s[0]] + rest[0]] + rest[1..]
  }

  function Join(parts: seq<string>, sep: char): string {
    if parts == [] then "" else if |parts| == 1 then parts[0] else parts[0] + [sep] + Join(parts[1..], sep)
  }

  lemma JoinFirst(c: char, first: string, rest: seq<string>, sep: char)
    ensures Join([[c] + first] + rest, sep) == [c] + Join([first] + rest, sep)
    ensures Join([""] + ([first] + rest), sep) == [sep] + Join([first] + rest, sep)
  {
    assert ([[c] + first] + rest)[1..] == rest == ([first] + rest)[1..];
    assert ([""] + ([first] + rest))[1..] == [first] + rest;
    if rest != [] {
      assert ([c] + first) + [sep] + Join(rest, sep) == [c] + (first + [sep] + Join(rest, sep));
    }
  }

  /** Joining the pieces gives the text back... */
  lemma {:induction false} SplitJoin(s: string, sep: char)
    ensures Join(Split(s, sep), sep) == s
  {
    if s != "" {
      SplitJoin(s[1..], sep);
      var rest := Split(s[1..], sep);
      assert rest == [rest[0]] + rest[1..];
      JoinFirst(s[0], rest[0], rest[1..], sep);
      assert s == [s[0]] + s[1..];
    }
  }

  /** ...and no piece holds a separator. */
  lemma {:induction false} SplitPieces(s: string, sep: char, i: nat)
    requires i < |Split(s, sep)|
    ensures sep !in Split(s, sep)[i]
  {
    if s != "" {
      var rest := Split(s[1..], sep);
      if s[0] == sep {
        if i > 0 {
          SplitPieces(s[1..], sep, i - 1);
        }
      } else {
        SplitPieces(s[1..], sep, i);
      }
    }
  }

  /** The text before and after the first `sep`. */
  function SplitOnce(s: string, sep: char): (r: Option<(string, string)>)
    ensures r.None? <==> sep !in s
    ensures r.Some? ==> s == r.value.0 + [sep] + r.value.1 && sep !in r.value.0
  {
    if s == "" then None
    else if s[0] == sep then Some(("", s[1..]))
    else match SplitOnce(s[1..], sep)
      case None => None
      case Some((before, after)) => Some(([s[0]] + before, after))
  }

  // ---- Overrides ----

  type Parser = string -> Option<Json>

  /** A value that is no JSON stands for itself, as a text. */
  function ParseOverrideValue(parse: Parser, s: string): Json {
    match parse(s) case Some(j) => j case None => Str(s)
  }

  /** `path=value` with a path. */
  predicate WellFormed(raw: string) {
    '=' in raw && raw[0] != '='
  }

  function Override(parse: Parser, j: Json, raw: string): Json
    requires WellFormed(raw)
  {
    var (path, value) := SplitOnce(raw, '=').value;
    SetAt(j, Split(path, '.'), ParseOverrideValue(parse, value))
  }

  function OverrideAll(parse: Parser, j: Json, overrides: seq<string>): Json
    requires forall raw <- overrides :: WellFormed(raw)
  {
    if overrides == [] then j
    else Override(parse, OverrideAll(parse, j, overrides[..|overrides| - 1]), overrides[|overrides| - 1])
  }

  predicate BlobOk(parse: Parser, blob: Option<string>) {
    blob.Some? ==> parse(blob.value).Some? && parse(blob.value).value.Obj?
  }

  function WithBlob(parse: Parser, j: Json, blob: Option<string>): Json
    requires BlobOk(parse, blob)
  {
    match blob case None => j case Some(text) => Merged(j, parse(text).value)
  }

  /** A configuration that is changed in place. */
  class Config {
    var root: Json

    constructor (j: Json)
      ensures root == j
    {
      root := j;
    }

    method Merge(src: Json)
      modifies this
      ensures root == Merged(old(root), src)
    {
      root := DeepMerge(root, src);
    }

    method SetDotted(path: string, value: Json)
      modifies this
      ensures root == SetAt(old(root), Split(path, '.'), value)
    {
      root := SetPath(root, Split(path, '.'), value);
    }

    /** The blob, then the overrides in order; fails exactly on a blob that is no object or an
        override without a path and a value. */
    method ApplyOverrides(parse: Parser, blob: Option<string>, overrides: seq<string>) returns (r: Result<()>)
      modifies this
      ensures r.Ok? <==>
              && (blob.Some? ==> parse(blob.value).Some? && parse(blob.value).value.Obj?)
              && forall raw <- overrides :: '=' in raw && raw[0] != '='
      ensures r.Ok? ==> root == OverrideAll(parse, WithBlob(parse, old(root), blob), overrides)
    {
      if blob.Some? {
        var parsed := parse(blob.value);
        if parsed.None? {
          return Err("cannot parse the config blob");
        }
        if !parsed.value.Obj? {
          return Err("the config blob must be an object");
        }
        Merge(parsed.value);
      }
      ghost var merged := root;
      for i := 0 to |overrides|
        invariant forall raw <- overrides[..i] :: WellFormed(raw)
        invariant root == OverrideAll(parse, merged, overrides[..i])
      {
        var raw := overrides[i];
        assert raw in overrides;
        assert overrides[..i + 1] == overrides[..i] + [raw];
        match SplitOnce(raw, '=')
        case None =>
          return Err("an override must be of the form path=value");
        case Some((path, value)) =>
          if path == "" {
            assert raw[0] == '=';
            return Err("an override needs a path");
          }
          assert raw[0] == path[0];
          SetDotted(path, ParseOverrideValue(parse, value));
      }
      assert overrides[..|overrides|] == overrides;
      return Ok(());
    }
  }

  // ---- The last override wins ----

  /** The path and the value of an override. */
  function PathOf(raw: string): Path
    requires WellFormed(raw)
  {
    Split(SplitOnce(raw, '=').value.0, '.')
  }

  function ValueOf(parse: Parser, raw: string): Json
    requires WellFormed(raw)
  {
    ParseOverrideValue(parse, SplitOnce(raw, '=').value.1)
  }

  lemma {:induction false} LaterOverridesKeep(parse: Parser, j: Json, overrides: seq<string>, path: Path)
    requires forall raw <- overrides :: WellFormed(raw)
    requires forall raw <- overrides :: Diverge(PathOf(raw), path)
    ensures Get(OverrideAll(parse, j, overrides), path) == Get(j, path)
  {
    if overrides != [] {
      var n := |overrides| - 1;
      LaterOverridesKeep(parse, j, overrides[..n], path);
      SetFrame(OverrideAll(parse, j, overrides[..n]), PathOf(overrides[n]), ValueOf(parse, overrides[n]), path);
    }
  }

  ghost predicate AllWellFormed(overrides: seq<string>) {
    forall raw <- overrides :: WellFormed(raw)
  }

  lemma {:induction false} OverrideAllSplits(parse: Parser, j: Json, first: seq<string>, second: seq<string>)
    requires AllWellFormed(first) && AllWellFormed(second) && AllWellFormed(first + second)
    ensures OverrideAll(parse, j, first + second) == OverrideAll(parse, OverrideAll(parse, j, first), second)
  {
    if second == [] {
      assert first + second == first;
    } else {
      var n := |second| - 1;
      assert (first + second)[..|first| + n] == first + second[..n];
      OverrideAllSplits(parse, j, first, second[..n]);
    }
  }

  /** An override that later ones diverge from is read back, whatever blob and earlier overrides
      did, exactly if its last parent was not a value in the way when it was applied. */
  lemma LastOverrideWins(parse: Parser, j: Json, earlier: seq<string>, raw: string, later: seq<string>)
    requires forall r <- earlier :: WellFormed(r)
    requires WellFormed(raw)
    requires forall r <- later :: WellFormed(r) && Diverge(PathOf(r), PathOf(raw))
    ensures forall r <- earlier + [raw] + later :: WellFormed(r)
    ensures Get(OverrideAll(parse, j, earlier + [raw] + later), PathOf(raw)) == Some(ValueOf(parse, raw))
            <==> !ParentInTheWay(OverrideAll(parse, j, earlier), PathOf(raw))
  {
    var upTo := earlier + [raw];
    OverrideAllSplits(parse, j, upTo, later);
    LaterOverridesKeep(parse, OverrideAll(parse, j, upTo), later, PathOf(raw));
    assert upTo[..|earlier|] == earlier;
    SetGet(OverrideAll(parse, j, earlier), PathOf(raw), ValueOf(parse, raw));
  }

  // ---- What an override reads as ----

  lemma {:induction false} FirstEquals(path: string, text: string)
    requires '=' !in path
    ensures SplitOnce(path + "=" + text, '=') == Some((path, text))
  {
    if path == "" {
      assert path + "=" + text == "=" + text;
    } else {
      var raw := path + "=" + text;
      assert raw[1..] == path[1..] + "=" + text;
      FirstEquals(path[1..], text);
      assert [path[0]] + path[1..] == path;
    }
  }

  lemma {:induction false} GetThrough(j: Json, path: Path, q: Path)
    ensures Get(j, path + q) == match Get(j, path) case None => None case Some(v) => Get(v, q)
  {
    if path == [] {
      assert path + q == q;
    } else {
      assert (path + q)[1..] == path[1..] + q;
      if j.Obj? && path[0] in j.fields {
        GetThrough(j.fields[path[0]], path[1..], q);
      }
    }
  }

  lemma DivergeLonger(p: Path, path: Path, q: Path)
    requires Diverge(p, path)
    ensures Diverge(p, path + q)
  {
    assert path + q <= p ==> path <= p;
    assert p <= path + q ==> p <= path || path <= p;
  }

  /** What a text on the right of an override means: the value it parses to, or itself. */
  ghost function Meaning(parse: Parser, text: string): Json {
    if parse(text).Some? then parse(text).value else Str(text)
  }

  lemma OverrideParts(parse: Parser, path: string, text: string)
    requires path != "" && '=' !in path
    ensures var raw := path + "=" + text;
            WellFormed(raw) && PathOf(raw) == Split(path, '.') && ValueOf(parse, raw) == Meaning(parse, text)
  {
    FirstEquals(path, text);
    assert (path + "=" + text)[0] == path[0];
    assert (path + "=" + text)[|path|] == '=';
  }

  /** After `path=text`, and overrides that diverge from it, the dotted path reads what the text
      means, and every path below it what is there in that value, if and only if no last parent was
      in the way; else it reads as before. */
  lemma OverrideReads(parse: Parser, j: Json, earlier: seq<string>, path: string, text: string, later: seq<string>,
                      q: Path)
    requires path != "" && '=' !in path && AllWellFormed(earlier)
    requires forall r <- later :: WellFormed(r) && Diverge(PathOf(r), Split(path, '.'))
    ensures AllWellFormed(earlier + [path + "=" + text] + later)
    ensures var before, p := OverrideAll(parse, j, earlier), Split(path, '.');
            var after := OverrideAll(parse, j, earlier + [path + "=" + text] + later);
            && (Get(after, p) == Some(Meaning(parse, text)) <==> !ParentInTheWay(before, p))
            && (!ParentInTheWay(before, p) ==> Get(after, p + q) == Get(Meaning(parse, text), q))
            && (ParentInTheWay(before, p) ==> Get(after, p + q) == Get(before, p + q))
  {
    var raw, p := path + "=" + text, Split(path, '.');
    OverrideParts(parse, path, text);
    LastOverrideWins(parse, j, earlier, raw, later);
    var before, upTo := OverrideAll(parse, j, earlier), earlier + [raw];
    OverrideAllSplits(parse, j, upTo, later);
    assert upTo[..|earlier|] == earlier;
    SetGet(before, p, Meaning(parse, text));
    forall r | r in later ensures Diverge(PathOf(r), p + q) {
      DivergeLonger(PathOf(r), p, q);
    }
    LaterOverridesKeep(parse, OverrideAll(parse, j, upTo), later, p + q);
    GetThrough(OverrideAll(parse, j, upTo), p, q);
  }
}
