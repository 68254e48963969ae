/** Data paths in a shared configuration: stored relative to the mount, so that every host can mount
    the share somewhere else. */
module SharedPaths {
  import opened Common

  /** A component of a path as the standard library splits it. */
  datatype Component = RootDir | CurDir | ParentDir | Normal(name: string)

  type RawPath = seq<Component>

  predicate IsAbsolute(path: RawPath) {
    path != [] && path[0] == RootDir
  }

  predicate AllNormal(path: RawPath) {
    forall i | 0 <= i < |path| :: path[i].Normal?
  }

  /** The named components, or nothing if the path climbs or is absolute. */
  function Normalized(path: RawPath): Option<RawPath> {
    if path == [] then Some([])
    else
      match Normalized(path[..|path| - 1])
      case None => None
      case Some(front) =>
        match path[|path| - 1]
        case Normal(_) => Some(front + [path[|path| - 1]])
        case CurDir => Some(front)
        case ParentDir => None
        case RootDir => None
  }

  method NormalizeSharedRelativePath(path: RawPath) returns (normalized: Option<RawPath>)
    ensures normalized == Normalized(path)
    ensures normalized.Some? ==> AllNormal(normalized.value)
  {
    var out: RawPath := [];
    for i := 0 to |path|
      invariant Normalized(path[..i]) == Some(out)
      invariant AllNormal(out)
    {
      assert path[..i + 1][..i] == path[..i];
      match path[i]
      case Normal(_) => out := out + [path[i]];
      case CurDir =>
      case ParentDir =>
        NormalizedPrefix(path, i + 1);
        return None;
      case RootDir =>
        NormalizedPrefix(path, i + 1);
        return None;
    }
    assert path[..|path|] == path;
    normalized := Some(out);
  }

  lemma {:induction false} NormalizedPrefix(path: RawPath, n: nat)
    requires n <= |path| && Normalized(path[..n]).None?
    ensures Normalized(path).None?
    decreases |path| - n
  {
    if n < |path| {
      assert path[..n + 1][..n] == path[..n];
      NormalizedPrefix(path, n + 1);
    } else {
      assert path[..n] == path;
    }
  }

  function Encoded(path: RawPath, mount: RawPath): Option<RawPath> {
    if !IsAbsolute(path) then Normalized(path)
    else if mount <= path then Normalized(path[|mount|..])
    else None
  }

  function Resolved(path: RawPath, mount: RawPath): Option<RawPath> {
    match Normalized(path)
    case None => None
    case Some(relative) => Some(mount + relative)
  }

  // Laws.

  lemma {:induction false} NormalizedIsNormal(path: RawPath)
    requires Normalized(path).Some?
    ensures AllNormal(Normalized(path).value)
    decreases |path|
  {
    if path != [] {
      NormalizedIsNormal(path[..|path| - 1]);
    }
  }

  lemma {:induction false} NormalizedFixed(path: RawPath)
    requires AllNormal(path)
    ensures Normalized(path) == Some(path)
    decreases |path|
  {
    if path != [] {
      NormalizedFixed(path[..|path| - 1]);
      assert path == path[..|path| - 1] + [path[|path| - 1]];
    }
  }

  function Followed(a: Option<RawPath>, b: RawPath): Option<RawPath> {
    if a.None? then None else Some(a.value + b)
  }

  lemma FollowedStep(a: Option<RawPath>, b: RawPath, last: Component)
    ensures Followed(Followed(a, b), [last]) == Followed(a, b + [last])
  {
    if a.Some? {
      assert a.value + b + [last] == a.value + (b + [last]);
    }
  }

  lemma {:induction false} NormalizedConcat(a: RawPath, b: RawPath)
    requires AllNormal(b)
    ensures Normalized(a + b) == Followed(Normalized(a), b)
    decreases |b|
  {
    if b == [] {
      assert a + b == a;
      assert Normalized(a).Some? ==> Normalized(a).value + b == Normalized(a).value;
    } else {
      var front, last := b[..|b| - 1], b[|b| - 1];
      assert b == front + [last];
      NormalizedConcat(a, front);
      FollowedStep(Normalized(a), front, last);
      NormalizedSnoc(a, front, last);
    }
  }

  lemma NormalizedSnoc(a: RawPath, front: RawPath, last: Component)
    requires last.Normal?
    ensures Normalized(a + (front + [last])) == Followed(Normalized(a + front), [last])
  {
    var path := a + (front + [last]);
    assert path[..|path| - 1] == a + front && path[|path| - 1] == last;
  }

  /** Whatever a host stores, another host resolves to a path under its own mount. */
  lemma ResolvesUnderMount(path: RawPath, here: RawPath, there: RawPath)
    requires Encoded(path, here).Some?
    ensures var relative := Encoded(path, here).value;
            && AllNormal(relative)
            && Resolved(relative, there) == Some(there + relative) && there <= there + relative
  {
    NormalizedIsNormal(if IsAbsolute(path) then path[|here|..] else path);
    NormalizedFixed(Encoded(path, here).value);
  }

  /** A mount that names no folder of its own. */
  predicate NamesNothing(mount: RawPath) {
    Normalized(mount) == Some([])
  }

  /** Storing the resolved path again gives what was stored, exactly if the mount is absolute or
      names nothing. */
  lemma PortableExactly(path: RawPath, here: RawPath, there: RawPath)
    requires Encoded(path, here).Some?
    ensures Resolved(Encoded(path, here).value, there).Some?
    ensures Encoded(Resolved(Encoded(path, here).value, there).value, there) == Encoded(path, here)
            <==> IsAbsolute(there) || NamesNothing(there)
  {
    var relative := Encoded(path, here).value;
    ResolvesUnderMount(path, here, there);
    var resolved := there + relative;
    if IsAbsolute(there) {
      assert resolved[|there|..] == relative;
      NormalizedFixed(relative);
    } else {
      assert !IsAbsolute(resolved);
      NormalizedConcat(there, relative);
      if Normalized(there).Some? && Normalized(there).value + relative == relative {
        assert |Normalized(there).value| == 0;
      }
    }
  }

  // Which paths are stored, and as what.

  /** A path of named components and dots. */
  predicate Nameable(path: RawPath) {
    forall i | 0 <= i < |path| :: path[i].Normal? || path[i].CurDir?
  }

  /** The named components of a path, in order. */
  function Names(path: RawPath): RawPath {
    if path == [] then []
    else if path[0].Normal? then [path[0]] + Names(path[1..])
    else Names(path[1..])
  }

  lemma {:induction false} NamesSnoc(path: RawPath, last: Component)
    ensures Names(path + [last]) == Names(path) + if last.Normal? then [last] else []
    decreases |path|
  {
    if path == [] {
      assert path + [last] == [last] && [last][1..] == [];
    } else {
      assert (path + [last])[1..] == path[1..] + [last];
      NamesSnoc(path[1..], last);
    }
  }

  lemma {:induction false} NormalizedExactly(path: RawPath)
    ensures Normalized(path) == if Nameable(path) then Some(Names(path)) else None
    decreases |path|
  {
    if path != [] {
      var front, last := path[..|path| - 1], path[|path| - 1];
      assert path == front + [last];
      NormalizedExactly(front);
      NamesSnoc(front, last);
      assert forall i | 0 <= i < |front| :: front[i] == path[i];
      assert Nameable(path) <==> Nameable(front) && (last.Normal? || last.CurDir?);
      assert Names(front) + [] == Names(front);
    }
  }

  /** The path is the mount or lies below it. */
  predicate Below(path: RawPath, mount: RawPath) {
    |mount| <= |path| && forall i | 0 <= i < |mount| :: path[i] == mount[i]
  }

  /** What of a path is told apart from the mount: an absolute path leaves the mount away. */
  function Told(path: RawPath, mount: RawPath): RawPath {
    if path != [] && path[0] == RootDir && |mount| <= |path| then path[|mount|..] else path
  }

  predicate Storable(path: RawPath, mount: RawPath) {
    (path != [] && path[0] == RootDir ==> Below(path, mount)) && Nameable(Told(path, mount))
  }

  /** A path is stored exactly if, when absolute, it lies below the mount, and what then remains has
      named components and dots only; stored are the named components. Every other path is refused. */
  lemma StoredExactly(path: RawPath, mount: RawPath)
    ensures Encoded(path, mount) == if Storable(path, mount) then Some(Names(Told(path, mount))) else None
  {
    NormalizedExactly(Told(path, mount));
    assert Below(path, mount) <==> mount <= path;
    if path != [] && path[0] == RootDir && |mount| > |path| {
      assert !Below(path, mount);
    }
  }

  /** A stored path is found again below the mount of the host that looks, or refused if it climbs. */
  lemma ResolvedExactly(path: RawPath, mount: RawPath)
    ensures Resolved(path, mount) == if Nameable(path) then Some(mount + Names(path)) else None
  {
    NormalizedExactly(path);
  }

  lemma {:induction false} NamesAll(path: RawPath)
    requires AllNormal(path)
    ensures Names(path) == path
    decreases |path|
  {
    if path != [] {
      NamesAll(path[1..]);
    }
  }

  /** A path below the mount without dots comes back as it was. */
  lemma BelowReturns(path: RawPath, mount: RawPath)
    requires IsAbsolute(mount) && Below(path, mount) && AllNormal(path[|mount|..])
    ensures Encoded(path, mount).Some? && Resolved(Encoded(path, mount).value, mount) == Some(path)
  {
    StoredExactly(path, mount);
    NamesAll(path[|mount|..]);
    ResolvedExactly(path[|mount|..], mount);
    assert path == mount + path[|mount|..];
  }
}
