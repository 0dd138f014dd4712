/**
 The paths of pintos/src/filesys/path.c: how they are made canonical and written out again, and what
 that means for a walk through a directory tree.  Allocations succeed.
 */
module Path {
  import opened Wrappers

  datatype Canon = Canon(absolute: bool, tokens: seq<string>)

  // ---- components ----

  function SkipSlashes(s: string): (r: string)
    ensures |r| <= |s| && (r != "" ==> r[0] != '/')
  {
    if s != "" && s[0] == '/' then SkipSlashes(s[1..]) else s
  }

  /** Up to the first slash. */
  function NameLength(s: string): (n: nat)
    ensures n <= |s| && '/' !in s[..n] && (n < |s| ==> s[n] == '/')
    ensures s != "" && s[0] != '/' ==> n > 0
  {
    if s == "" || s[0] == '/' then 0 else NameLength(s[1..]) + 1
  }

  /** The names between slashes, empty ones left out: what strtok_r finds one by one. */
  function Components(s: string): seq<string>
    decreases |s|
  {
    var t := SkipSlashes(s);
    if t == "" then [] else [t[..NameLength(t)]] + Components(t[NameLength(t)..])
  }

  ghost predicate IsName(t: string) {
    t != "" && '/' !in t
  }

  /** What may stand in a canonical absolute path. */
  ghost predicate Clean(t: string) {
    IsName(t) && t != "." && t != ".."
  }

  lemma {:induction false} ComponentsAreNames(s: string, k: nat)
    requires k < |Components(s)|
    ensures IsName(Components(s)[k])
    decreases |s|
  {
    var t := SkipSlashes(s);
    if k > 0 {
      ComponentsAreNames(t[NameLength(t)..], k - 1);
    }
  }

  // ---- path_canonicalize ----

  /** What a component does to the list of tokens. */
  function Push(absolute: bool, tokens: seq<string>, c: string): seq<string> {
    if c == ".." then
      if tokens != [] then tokens[..|tokens| - 1] else if absolute then [] else [".."]
    else if c == "." then tokens
    else tokens + [c]
  }

  function Reduce(absolute: bool, tokens: seq<string>, cs: seq<string>): seq<string>
    decreases |cs|
  {
    if cs == [] then tokens else Reduce(absolute, Push(absolute, tokens, cs[0]), cs[1..])
  }

  function IsAbsolute(path: string): bool {
    path != "" && path[0] == '/'
  }

  function Canonical(path: string): Option<Canon> {
    if path == "" then None else Some(Canon(IsAbsolute(path), Reduce(IsAbsolute(path), [], Components(path))))
  }

  lemma SkipOne(s: string, k: nat)
    requires k < |s|
    ensures s[k] == '/' ==> SkipSlashes(s[k..]) == SkipSlashes(s[k + 1..])
    ensures NameLength(s[k..]) == if s[k] == '/' then 0 else NameLength(s[k + 1..]) + 1
  {
    assert s[k..][1..] == s[k + 1..];
  }

  lemma SlashSkipped(s: string, k: nat)
    requires k < |s| && s[k] == '/'
    ensures Components(s[k..]) == Components(s[k + 1..])
  {
    SkipOne(s, k);
  }

  lemma NoneLeft(s: string, pos: nat)
    requires pos <= |s| && SkipSlashes(s[pos..]) == SkipSlashes("")
    ensures Components(s[pos..]) == []
  {
  }

  lemma TokenFound(s: string, pos: nat, start: nat, next: nat)
    requires pos <= start < next <= |s| && s[start] != '/' && SkipSlashes(s[pos..]) == SkipSlashes(s[start..])
    requires NameLength(s[start..]) == next - start
    ensures Components(s[pos..]) == [s[start..next]] + Components(s[next..])
  {
    var t := s[start..];
    assert t[0] == s[start];
    assert t[..next - start] == s[start..next] && t[next - start..] == s[next..];
  }

  /** strtok_r with "/" for delimiter, on the rest of a string from a position on. */
  method Strtok(s: string, pos: nat) returns (token: Option<string>, next: nat)
    requires pos <= |s|
    ensures next <= |s| && (token.Some? ==> pos < next)
    ensures Components(s[pos..]) == if token.None? then [] else [token.value] + Components(s[next..])
  {
    hide SkipSlashes, NameLength, Components;
    next := pos;
    while next < |s| && s[next] == '/'
      invariant pos <= next <= |s| && SkipSlashes(s[next..]) == SkipSlashes(s[pos..])
    {
      SkipOne(s, next);
      next := next + 1;
    }
    if next == |s| {
      assert s[next..] == "";
      NoneLeft(s, pos);
      return None, next;
    }
    var start := next;
    while next < |s| && s[next] != '/'
      invariant start <= next <= |s| && NameLength(s[start..]) == next - start + NameLength(s[next..])
    {
      SkipOne(s, next);
      next := next + 1;
    }
    if next < |s| {
      SkipOne(s, next);
    }
    TokenFound(s, pos, start, next);
    token := Some(s[start..next]);
    if next < |s| {
      SlashSkipped(s, next);
      next := next + 1;
    }
  }

  lemma ReduceOne(absolute: bool, tokens: seq<string>, c: string, rest: seq<string>)
    ensures Reduce(absolute, tokens, [c] + rest) == Reduce(absolute, Push(absolute, tokens, c), rest)
  {
    assert ([c] + rest)[1..] == rest;
  }

  lemma ReduceNone(absolute: bool, tokens: seq<string>)
    ensures Reduce(absolute, tokens, []) == tokens
  {
  }

  method PathCanonicalize(path: string) returns (out: Option<Canon>)
    ensures out == Canonical(path)
  {
    if |path| == 0 {
      return None;
    }
    var absolute := path[0] == '/';
    var next := if absolute then 1 else 0;
    assert path[0..] == path;
    if absolute {
      SlashSkipped(path, 0);
    }
    hide Reduce, Components;
    var tokens: seq<string> := [];
    ghost var todo := Components(path[next..]);
    var probe;
    probe, next := Strtok(path, next);
    while probe.Some?
      invariant next <= |path|
      invariant todo == if probe.None? then [] else [probe.value] + Components(path[next..])
      invariant Reduce(absolute, [], Components(path)) == Reduce(absolute, tokens, todo)
      decreases if probe.Some? then |path| - next + 1 else 0
    {
      ghost var pushed := Push(absolute, tokens, probe.value);
      ReduceOne(absolute, tokens, probe.value, Components(path[next..]));
      todo := Components(path[next..]);
      if probe.value == ".." {
        if tokens != [] {
          tokens := tokens[..|tokens| - 1];
        } else if !absolute {
          tokens := [".."];
        }
      } else if probe.value != "." {
        tokens := tokens + [probe.value];
      }
      assert tokens == pushed;
      probe, next := Strtok(path, next);
    }
    ReduceNone(absolute, tokens);
    out := Some(Canon(absolute, tokens));
  }

  // ---- what tokens there are ----

  ghost predicate AllClean(ts: seq<string>) {
    forall i :: 0 <= i < |ts| ==> Clean(ts[i])
  }

  ghost predicate AllNames(cs: seq<string>) {
    forall i :: 0 <= i < |cs| ==> IsName(cs[i])
  }

  lemma PathNames(path: string)
    ensures AllNames(Components(path))
  {
    forall k | 0 <= k < |Components(path)| ensures IsName(Components(path)[k]) {
      ComponentsAreNames(path, k);
    }
  }

  lemma {:induction false} ReduceAbsoluteClean(ts: seq<string>, cs: seq<string>)
    requires AllClean(ts) && AllNames(cs)
    ensures AllClean(Reduce(true, ts, cs))
    decreases |cs|
  {
    if cs != [] {
      ReduceAbsoluteClean(Push(true, ts, cs[0]), cs[1..]);
    }
  }

  /** The tokens of an absolute path are never empty, "." or "..", and hold no slash. */
  lemma AbsoluteTokens(path: string)
    requires IsAbsolute(path)
    ensures Canonical(path).Some? && Canonical(path).value.absolute && AllClean(Canonical(path).value.tokens)
  {
    PathNames(path);
    ReduceAbsoluteClean([], Components(path));
  }

  ghost predicate RelativeOk(ts: seq<string>) {
    ts == [] || ((Clean(ts[0]) || ts[0] == "..") && AllClean(ts[1..]))
  }

  lemma {:induction false} ReduceRelative(ts: seq<string>, cs: seq<string>)
    requires RelativeOk(ts) && AllNames(cs)
    ensures RelativeOk(Reduce(false, ts, cs))
    decreases |cs|
  {
    if cs != [] {
      var ts' := Push(false, ts, cs[0]);
      if ts != [] && ts' != [] {
        assert ts'[1..] == if cs[0] == ".." then ts[1..][..|ts| - 2] else if cs[0] == "." then ts[1..]
            else ts[1..] + [cs[0]];
      }
      ReduceRelative(ts', cs[1..]);
    }
  }

  /** The tokens of a relative path are clean but for at most one "..", which comes first. */
  lemma RelativeTokens(path: string)
    requires path != "" && !IsAbsolute(path)
    ensures Canonical(path).Some? && !Canonical(path).value.absolute && RelativeOk(Canonical(path).value.tokens)
  {
    PathNames(path);
    ReduceRelative([], Components(path));
  }

  // ---- canon_path_serialize ----

  function Join(ts: seq<string>): string {
    if ts == [] then "" else "/" + ts[0] + Join(ts[1..])
  }

  /** The path without its last `outer` tokens; there is no way to write the root itself. */
  function Serialized(c: Canon, outer: nat): Option<string> {
    if |c.tokens| <= outer then None else Some(Join(c.tokens[..|c.tokens| - outer]))
  }

  lemma {:induction false} JoinComponents(ts: seq<string>)
    requires AllNames(ts)
    ensures Components(Join(ts)) == ts
  {
    if ts != [] {
      var rest := Join(ts[1..]);
      JoinComponents(ts[1..]);
      var s := ts[0] + rest;
      assert Join(ts)[1..] == s;
      assert SkipSlashes(s) == s;
      assert rest == "" || rest[0] == '/';
      NameBeforeSlash(ts[0], rest);
      assert s[..|ts[0]|] == ts[0] && s[|ts[0]|..] == rest;
    }
  }

  lemma {:induction false} NameBeforeSlash(name: string, rest: string)
    requires '/' !in name && (rest == "" || rest[0] == '/')
    ensures NameLength(name + rest) == |name|
  {
    if name == "" {
      assert name + rest == rest;
    } else {
      assert (name + rest)[1..] == name[1..] + rest;
      NameBeforeSlash(name[1..], rest);
    }
  }

  lemma {:induction false} ReduceClean(absolute: bool, ts: seq<string>, cs: seq<string>)
    requires AllClean(cs)
    ensures Reduce(absolute, ts, cs) == ts + cs
    decreases |cs|
  {
    if cs == [] {
      assert ts + cs == ts;
    } else {
      ReduceClean(absolute, ts + [cs[0]], cs[1..]);
      assert ts + [cs[0]] + cs[1..] == ts + cs;
    }
  }

  /** Clean tokens come back from the text that they are written as. */
  lemma RoundTrip(c: Canon, outer: nat)
    requires AllClean(c.tokens) && outer < |c.tokens|
    ensures Serialized(c, outer).Some?
    ensures Canonical(Serialized(c, outer).value) == Some(Canon(true, c.tokens[..|c.tokens| - outer]))
  {
    var ts := c.tokens[..|c.tokens| - outer];
    JoinComponents(ts);
    ReduceClean(true, [], ts);
    assert [] + ts == ts;
  }

  /** To write out a canonical absolute path other than the root and to read it again changes nothing. */
  lemma Recanonicalized(path: string)
    requires IsAbsolute(path) && Canonical(path).Some? && Canonical(path).value.tokens != []
    ensures Serialized(Canonical(path).value, 0).Some?
    ensures Canonical(Serialized(Canonical(path).value, 0).value) == Canonical(path)
  {
    AbsoluteTokens(path);
    var c := Canonical(path).value;
    RoundTrip(c, 0);
    assert c.tokens[..|c.tokens|] == c.tokens;
  }

  lemma {:induction false} JoinLast(ts: seq<string>, t: string)
    ensures Join(ts + [t]) == Join(ts) + "/" + t
  {
    if ts == [] {
      assert Join([t]) == "/" + t + Join([]);
    } else {
      JoinLast(ts[1..], t);
      assert (ts + [t])[1..] == ts[1..] + [t];
    }
  }

  /** canon_path_serialize: the buffer has the text, a null character and one spare byte; the length
      it reports counts the null character. */
  method CanonPathSerialize(c: Canon, outer: nat) returns (out: Option<array<char>>, outLength: nat)
    ensures out.None? <==> Serialized(c, outer).None?
    ensures out.Some? ==>
            && fresh(out.value) && outLength == |Serialized(c, outer).value| + 1 && out.value.Length == outLength + 1
            && out.value[..outLength] == Serialized(c, outer).value + ['\0']
  {
    outLength := 1;
    if |c.tokens| <= outer {
      return None, outLength;
    }
    var n := |c.tokens| - outer;
    hide Join;
    JoinNone(c.tokens);
    for i := 0 to n
      invariant outLength == |Join(c.tokens[..i])| + 1
    {
      JoinNext(c.tokens, i, n);
      outLength := outLength + |c.tokens[i]|;
      outLength := outLength + 1;
    }
    var buffer := new char[outLength + 1];
    var offset := 0;
    buffer[offset] := '/';
    offset := offset + 1;
    for i := 0 to n
      invariant 1 <= offset <= |Join(c.tokens[..i])| + 1 <= outLength
      invariant buffer[..offset] == Join(c.tokens[..i]) + if i < n then "/" else ""
    {
      JoinNext(c.tokens, i, n);
      var tok := c.tokens[i];
      ghost var was := buffer[..offset];
      forall k | 0 <= k < |tok| {
        buffer[offset + k] := tok[k];
      }
      assert buffer[..offset + |tok|] == was + tok;
      offset := offset + |tok|;
      if i < n - 1 {
        buffer[offset] := '/';
        offset := offset + 1;
      }
    }
    buffer[offset] := '\0';
    out := Some(buffer);
  }

  lemma JoinNone(ts: seq<string>)
    ensures Join(ts[..0]) == ""
  {
  }

  lemma JoinNext(ts: seq<string>, i: nat, n: nat)
    requires i < n <= |ts|
    ensures Join(ts[..i + 1]) == Join(ts[..i]) + "/" + ts[i]
    ensures |Join(ts[..i + 1])| <= |Join(ts[..n])|
  {
    assert ts[..i + 1] == ts[..i] + [ts[i]];
    JoinLast(ts[..i], ts[i]);
    JoinGrows(ts[..n], i + 1);
    assert ts[..n][..i + 1] == ts[..i + 1];
  }

  lemma {:induction false} JoinGrows(ts: seq<string>, i: nat)
    requires i <= |ts|
    ensures |Join(ts[..i])| <= |Join(ts)|
    decreases |ts|
  {
    if i > 0 {
      JoinGrows(ts[1..], i - 1);
      assert ts[..i][1..] == ts[1..][..i - 1];
    }
  }

  // ---- walking a directory tree ----

  /** Who a directory or file is; any infinite type would do. */
  type Node = seq<string>

  datatype Tree = Tree(root: Node, parent: Node -> Node, entry: (Node, string) -> Option<Node>)

  /** The root is its own parent, and whoever has an entry is the parent of what it leads to. */
  ghost predicate Sound(t: Tree) {
    && t.parent(t.root) == t.root
    && (forall n, name | t.entry(n, name).Some? :: t.parent(t.entry(n, name).value) == n)
  }

  function Into(t: Tree, n: Node, c: string): Option<Node> {
    if c == "." then Some(n) else if c == ".." then Some(t.parent(n)) else t.entry(n, c)
  }

  function Walk(t: Tree, n: Node, cs: seq<string>): Option<Node>
    decreases |cs|
  {
    if cs == [] then Some(n)
    else
      var m := Into(t, n, cs[0]);
      if m.None? then None else Walk(t, m.value, cs[1..])
  }

  lemma {:induction false} WalkConcat(t: Tree, n: Node, a: seq<string>, b: seq<string>)
    ensures Walk(t, n, a + b) == if Walk(t, n, a).None? then None else Walk(t, Walk(t, n, a).value, b)
    decreases |a|
  {
    if a == [] {
      assert a + b == b;
    } else {
      assert (a + b)[1..] == a[1..] + b;
      if Into(t, n, a[0]).Some? {
        WalkConcat(t, Into(t, n, a[0]).value, a[1..], b);
      }
    }
  }

  lemma WalkLast(t: Tree, n: Node, ts: seq<string>)
    requires ts != []
    ensures Walk(t, n, ts) == if Walk(t, n, ts[..|ts| - 1]).None? then None
                              else Into(t, Walk(t, n, ts[..|ts| - 1]).value, ts[|ts| - 1])
  {
    var a, b := ts[..|ts| - 1], [ts[|ts| - 1]];
    assert ts == a + b && b[1..] == [];
    WalkConcat(t, n, a, b);
  }

  /** One component has the same effect on the tokens as on the place that they lead to. */
  lemma PushWalks(t: Tree, start: Node, absolute: bool, ts: seq<string>, c: string)
    requires Sound(t) && Walk(t, start, ts).Some? && Into(t, Walk(t, start, ts).value, c).Some?
    requires absolute ==> start == t.root
    requires c == ".." && ts != [] ==> Clean(ts[|ts| - 1])
    ensures Walk(t, start, Push(absolute, ts, c)) == Into(t, Walk(t, start, ts).value, c)
  {
    if c == ".." {
      if ts != [] {
        WalkLast(t, start, ts);
      } else {
        assert Walk(t, start, [".."]) == Walk(t, t.parent(start), [".."][1..]);
      }
    } else if c != "." {
      WalkLast(t, start, ts + [c]);
      assert (ts + [c])[..|ts|] == ts;
    }
  }

  lemma {:induction false} ReduceWalks(t: Tree, ts: seq<string>, cs: seq<string>)
    requires Sound(t) && AllClean(ts) && AllNames(cs)
    requires Walk(t, t.root, ts).Some? && Walk(t, Walk(t, t.root, ts).value, cs).Some?
    ensures Walk(t, t.root, Reduce(true, ts, cs)) == Walk(t, Walk(t, t.root, ts).value, cs)
    decreases |cs|
  {
    if cs != [] {
      PushWalks(t, t.root, true, ts, cs[0]);
      ReduceWalks(t, Push(true, ts, cs[0]), cs[1..]);
    }
  }

  /** In any directory tree in which the path as it was given leads somewhere, its canonical form
      leads to the same place. */
  lemma AbsoluteWalk(t: Tree, path: string)
    requires Sound(t) && IsAbsolute(path) && Walk(t, t.root, Components(path)).Some?
    ensures Walk(t, t.root, Canonical(path).value.tokens) == Walk(t, t.root, Components(path))
  {
    PathNames(path);
    ReduceWalks(t, [], Components(path));
  }

  // ---- relative paths ----

  /** What a relative path amounts to: so many steps up, then names. */
  datatype Net = Net(ups: nat, names: seq<string>)

  function Follow(n: Net, c: string): Net {
    if c == ".." then
      if n.names != [] then Net(n.ups, n.names[..|n.names| - 1]) else Net(n.ups + 1, [])
    else if c == "." then n
    else Net(n.ups, n.names + [c])
  }

  function FollowAll(n: Net, cs: seq<string>): Net
    decreases |cs|
  {
    if cs == [] then n else FollowAll(Follow(n, cs[0]), cs[1..])
  }

  function Ups(k: nat): (s: seq<string>)
    ensures |s| == k && forall i :: 0 <= i < k ==> s[i] == ".."
  {
    seq(k, i => "..")
  }

  function NetTokens(n: Net): seq<string> {
    Ups(n.ups) + n.names
  }

  lemma {:induction false} NamesClean(n: Net, cs: seq<string>)
    requires AllClean(n.names) && AllNames(cs)
    ensures AllClean(FollowAll(n, cs).names)
    decreases |cs|
  {
    if cs != [] {
      NamesClean(Follow(n, cs[0]), cs[1..]);
    }
  }

  lemma {:induction false} UpsGrow(n: Net, cs: seq<string>)
    ensures n.ups <= FollowAll(n, cs).ups
    decreases |cs|
  {
    if cs != [] {
      UpsGrow(Follow(n, cs[0]), cs[1..]);
    }
  }

  lemma {:induction false} ReduceFollows(n: Net, cs: seq<string>)
    requires AllClean(n.names) && AllNames(cs) && FollowAll(n, cs).ups <= 1
    ensures Reduce(false, NetTokens(n), cs) == NetTokens(FollowAll(n, cs))
    decreases |cs|
  {
    if cs != [] {
      var n' := Follow(n, cs[0]);
      UpsGrow(n', cs[1..]);
      assert Push(false, NetTokens(n), cs[0]) == NetTokens(n') by {
        if cs[0] == ".." && n.names == [] {
          assert NetTokens(n) == [] && NetTokens(n') == [".."];
        }
      }
      ReduceFollows(n', cs[1..]);
    }
  }

  /** The canonical form of a relative path is what the path amounts to exactly when that is at most
      one step up: a second ".." with no name before it takes the first one back. */
  lemma RelativeExactly(path: string)
    requires path != "" && !IsAbsolute(path)
    ensures var n := FollowAll(Net(0, []), Components(path));
            Canonical(path).value.tokens == NetTokens(n) <==> n.ups <= 1
  {
    PathNames(path);
    RelativeTokens(path);
    var n := FollowAll(Net(0, []), Components(path));
    assert NetTokens(Net(0, [])) == [];
    if n.ups <= 1 {
      ReduceFollows(Net(0, []), Components(path));
    } else {
      var ts := Canonical(path).value.tokens;
      assert NetTokens(n)[1] == "..";
      assert |ts| > 1 ==> ts[1] == ts[1..][0] && Clean(ts[1]);
    }
  }

  lemma FollowWalks(t: Tree, start: Node, n: Net, c: string)
    requires Sound(t) && AllClean(n.names) && Walk(t, start, NetTokens(n)).Some?
    requires Into(t, Walk(t, start, NetTokens(n)).value, c).Some?
    ensures Walk(t, start, NetTokens(Follow(n, c))) == Into(t, Walk(t, start, NetTokens(n)).value, c)
  {
    var ts := NetTokens(n);
    if c == ".." && n.names == [] {
      assert NetTokens(Follow(n, c)) == ts + [".."];
      WalkLast(t, start, ts + [".."]);
      assert (ts + [".."])[..|ts|] == ts;
    } else {
      assert NetTokens(Follow(n, c)) == Push(false, ts, c);
      PushWalks(t, start, false, ts, c);
    }
  }

  lemma {:induction false} FollowAllWalks(t: Tree, start: Node, n: Net, cs: seq<string>)
    requires Sound(t) && AllClean(n.names) && AllNames(cs) && Walk(t, start, NetTokens(n)).Some?
    requires Walk(t, Walk(t, start, NetTokens(n)).value, cs).Some?
    ensures Walk(t, start, NetTokens(FollowAll(n, cs))) == Walk(t, Walk(t, start, NetTokens(n)).value, cs)
    decreases |cs|
  {
    if cs != [] {
      FollowWalks(t, start, n, cs[0]);
      FollowAllWalks(t, start, Follow(n, cs[0]), cs[1..]);
    }
  }

  /** So many steps up, then the names: that leads to the same place, from wherever one starts. */
  lemma NetWalks(t: Tree, start: Node, path: string)
    requires Sound(t) && Walk(t, start, Components(path)).Some?
    ensures Walk(t, start, NetTokens(FollowAll(Net(0, []), Components(path)))) == Walk(t, start, Components(path))
  {
    PathNames(path);
    assert NetTokens(Net(0, [])) == [];
    FollowAllWalks(t, start, Net(0, []), Components(path));
  }

  /** The tree in which every name leads somewhere. */
  const FREE: Tree := Tree([], FreeParent, FreeEntry)

  function FreeParent(n: Node): Node {
    if n == [] then [] else n[..|n| - 1]
  }

  function FreeEntry(n: Node, name: string): Option<Node> {
    Some(n + [name])
  }

  lemma FreeSound()
    ensures Sound(FREE)
  {
  }

  lemma {:induction false} FreeResolves(n: Node, cs: seq<string>)
    ensures Walk(FREE, n, cs).Some?
    decreases |cs|
  {
    if cs != [] {
      FreeResolves(Into(FREE, n, cs[0]).value, cs[1..]);
    }
  }

  lemma {:induction false} FreeNames(n: Node, ts: seq<string>)
    requires AllClean(ts)
    ensures Walk(FREE, n, ts) == Some(n + ts)
    decreases |ts|
  {
    if ts == [] {
      assert n + ts == n;
    } else {
      FreeNames(n + [ts[0]], ts[1..]);
      assert n + [ts[0]] + ts[1..] == n + ts;
    }
  }

  lemma {:induction false} FreeUps(n: Node, k: nat)
    requires k <= |n|
    ensures Walk(FREE, n, Ups(k)) == Some(n[..|n| - k])
    decreases k
  {
    if k == 0 {
      assert n[..|n|] == n;
    } else {
      assert Ups(k)[0] == ".." && Ups(k)[1..] == Ups(k - 1);
      FreeUps(FreeParent(n), k - 1);
      assert FreeParent(n)[..|n| - k] == n[..|n| - k];
    }
  }

  lemma FreeNet(start: Node, ups: nat, names: seq<string>)
    requires ups <= |start| && AllClean(names)
    ensures Walk(FREE, start, Ups(ups) + names) == Some(start[..|start| - ups] + names)
  {
    WalkConcat(FREE, start, Ups(ups), names);
    FreeUps(start, ups);
    FreeNames(start[..|start| - ups], names);
  }

  /** Whatever the tree and the start, the path leads to where its canonical form leads. */
  ghost predicate LeadsToSamePlace(path: string)
    requires Canonical(path).Some?
  {
    forall t, start | Sound(t) && Walk(t, start, Components(path)).Some? ::
      Walk(t, start, Canonical(path).value.tokens) == Walk(t, start, Components(path))
  }

  /** Far enough from the root, a path that goes two steps up leads elsewhere than its canonical form. */
  lemma TooFewUps(path: string)
    requires path != "" && !IsAbsolute(path) && FollowAll(Net(0, []), Components(path)).ups >= 2
    ensures !LeadsToSamePlace(path)
  {
    var n, ts := FollowAll(Net(0, []), Components(path)), Canonical(path).value.tokens;
    PathNames(path);
    NamesClean(Net(0, []), Components(path));
    var start: Node := seq(n.ups, i => "");
    FreeSound();
    FreeResolves(start, Components(path));
    NetWalks(FREE, start, path);
    FreeNet(start, n.ups, n.names);
    RelativeTokens(path);
    var u := if ts != [] && ts[0] == ".." then 1 else 0;
    assert ts == Ups(u) + ts[u..];
    FreeNet(start, u, ts[u..]);
    var here, there := start[..|start| - n.ups] + n.names, start[..|start| - u] + ts[u..];
    assert there[0] == "" && here == n.names;
    assert here != [] ==> here[0] != "";
  }

  lemma FewUps(path: string)
    requires path != "" && !IsAbsolute(path) && FollowAll(Net(0, []), Components(path)).ups <= 1
    ensures LeadsToSamePlace(path)
  {
    RelativeExactly(path);
    forall t, start | Sound(t) && Walk(t, start, Components(path)).Some?
      ensures Walk(t, start, Canonical(path).value.tokens) == Walk(t, start, Components(path)) {
      NetWalks(t, start, path);
    }
  }

  /** The walk along the canonical form of a relative path ends where the path itself leads, in every
      tree and from every start, exactly when the path amounts to at most one step up. */
  lemma RelativeWalk(path: string)
    requires path != "" && !IsAbsolute(path)
    ensures LeadsToSamePlace(path) <==> FollowAll(Net(0, []), Components(path)).ups <= 1
  {
    if FollowAll(Net(0, []), Components(path)).ups <= 1 {
      FewUps(path);
    } else {
      TooFewUps(path);
    }
  }
}
