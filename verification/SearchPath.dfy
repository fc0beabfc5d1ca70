/** The functions of ltdl.c that canonicalize a search path and go through its directories. */
module SearchPath {
  import opened Bytes
  import opened ArgzSpec
  import opened SearchPathSpec
  import ArgzVector

  /** A C string's byte, its terminator included. */
  function At(s: Text, i: nat): Byte
    requires i <= |s|
  {
    if i < |s| then s[i] else 0
  }

  lemma CanonStep(out: seq<Byte>, p: Text, src: nat, started: bool)
    requires NulFree(p) && src < |p|
    ensures var c, next := p[src], At(p, src + 1);
      out + Canon(p[src..], started)
      == if c == COLON && (!started || next == COLON || next == 0) then out + Canon(p[src + 1..], started)
         else if c != SLASH then out + [c] + Canon(p[src + 1..], true)
         else if next != COLON && next != 0 && next != SLASH then out + [SLASH] + Canon(p[src + 1..], true)
         else out + Canon(p[src + 1..], started)
  {
    assert p[src..][1..] == p[src + 1..];
    assert src + 1 < |p| ==> p[src + 1] in p;
  }

  lemma CanonEnds(p: Text, started: bool)
    ensures Canon(p[|p|..], started) == [] && p[0..] == p
  {
  }

  /** `canonicalize_path`: `dest` bytes are copied to a new block, and a terminator behind them. */
  method CanonicalizePath(path: Text) returns (canonical: array<Byte>, dest: nat)
    requires NulFree(path) && path != []
    ensures fresh(canonical) && dest < canonical.Length
    ensures canonical[..dest] == Canon(path, false) && canonical[dest] == 0
  {
    hide Canon, NulFree, At;
    canonical := new Byte[1 + |path|];
    dest := 0;
    ghost var out: seq<Byte> := [];
    CanonEnds(path, false);
    for src := 0 to |path|
      invariant dest <= src && canonical[..dest] == out
      invariant out + Canon(path[src..], dest > 0) == Canon(path, false)
    {
      CanonStep(out, path, src, dest > 0);
      if path[src] == COLON {
        if dest == 0 || At(path, 1 + src) == COLON || At(path, 1 + src) == 0 {
          continue;
        }
      }
      if path[src] != SLASH {
        canonical[dest] := path[src];
        assert canonical[..dest] == out && canonical[..dest + 1] == canonical[..dest] + [path[src]];
        dest := dest + 1;
        out := out + [path[src]];
      } else if At(path, 1 + src) != COLON && At(path, 1 + src) != 0 && At(path, 1 + src) != SLASH {
        canonical[dest] := SLASH;
        assert canonical[..dest] == out && canonical[..dest + 1] == canonical[..dest] + [SLASH];
        dest := dest + 1;
        out := out + [SLASH];
      }
    }
    CanonEnds(path, dest > 0);
    canonical[dest] := 0;
  }

  /** The file name tried in a directory; without a base name the directory itself. */
  function FileName(dir: Text, base: Text): Text {
    if base == [] then dir
    else (if dir != [] && dir[|dir| - 1] != SLASH then dir + [SLASH] else dir) + base
  }

  /** A directory and a base name are joined by one slash, which the directory may bring along. */
  ghost predicate Joined(name: Text, dir: Text, base: Text) {
    if base == [] then name == dir
    else
      exists p: Text ::
        && name == p + [SLASH] + base
        && (p + [SLASH] == dir || (p == dir && dir != [] && dir[|dir| - 1] != SLASH))
  }

  lemma FileNameJoined(dir: Text, base: Text)
    requires dir != [] || base == []
    ensures Joined(FileName(dir, base), dir, base)
  {
    if base != [] && dir[|dir| - 1] == SLASH {
      assert dir[..|dir| - 1] + [SLASH] == dir;
    }
  }

  /** What the walk ends with: no path, the callback's answer, or a read in front of the block for the names. */
  datatype Outcome = NoPath | Answered(answer: int) | OutOfBounds

  /** The names handed to the callback, and how the walk ended. */
  datatype Walk = Walk(calls: seq<Text>, outcome: Outcome)

  /**
   The walk over the remaining entries, after `done` was handed to the callback. With a base name, the
   source looks at the last byte of the directory's name, even where this name is empty.
   */
  function WalkFrom(done: seq<Text>, dirs: seq<Text>, base: Text, callback: Text -> int): Walk
    decreases dirs
  {
    if dirs == [] then Walk(done, Answered(0))
    else if dirs[0] == [] && base != [] then Walk(done, OutOfBounds)
    else
      var name := FileName(dirs[0], base);
      if callback(name) != 0 then Walk(done + [name], Answered(callback(name)))
      else WalkFrom(done + [name], dirs[1..], base, callback)
  }

  function FileNames(dirs: seq<Text>, base: Text): (names: seq<Text>)
    ensures |names| == |dirs| && forall i :: 0 <= i < |dirs| ==> names[i] == FileName(dirs[i], base)
  {
    seq(|dirs|, i requires 0 <= i < |dirs| => FileName(dirs[i], base))
  }

  /** None of the names is answered with something other than zero. */
  ghost predicate Unanswered(names: seq<Text>, callback: Text -> int) {
    forall i :: 0 <= i < |names| ==> callback(names[i]) == 0
  }

  /** No name is looked at that is not there. */
  ghost predicate Composable(dirs: seq<Text>, base: Text) { base == [] || [] !in dirs }

  /** Every name of the walk is one of the directories, in their order, joined with the base name. */
  lemma {:induction false} WalkJoins(done: seq<Text>, dirs: seq<Text>, base: Text, callback: Text -> int)
    ensures var calls := WalkFrom(done, dirs, base, callback).calls;
      && |done| <= |calls| <= |done| + |dirs| && calls[..|done|] == done
      && forall i :: |done| <= i < |calls| ==> Joined(calls[i], dirs[i - |done|], base)
    decreases |dirs|
  {
    hide Joined, FileName;
    if dirs != [] && (dirs[0] != [] || base == []) {
      FileNameJoined(dirs[0], base);
      WalkJoins(done + [FileName(dirs[0], base)], dirs[1..], base, callback);
    }
  }

  lemma NamesJoined(dirs: seq<Text>, base: Text)
    requires Composable(dirs, base)
    ensures forall i :: 0 <= i < |dirs| ==> Joined(FileNames(dirs, base)[i], dirs[i], base)
  {
    hide Joined, FileName;
    forall i | 0 <= i < |dirs| ensures Joined(FileNames(dirs, base)[i], dirs[i], base) {
      assert dirs[i] in dirs;
      FileNameJoined(dirs[i], base);
    }
  }

  lemma FileNamesFirst(dirs: seq<Text>, base: Text)
    requires dirs != []
    ensures FileNames(dirs, base) == [FileName(dirs[0], base)] + FileNames(dirs[1..], base)
  {
    hide FileName;
  }

  lemma ComposableFirst(dirs: seq<Text>, base: Text)
    requires dirs != []
    ensures Composable(dirs, base) <==> (base == [] || dirs[0] != []) && Composable(dirs[1..], base)
  {
    assert dirs == [dirs[0]] + dirs[1..];
  }

  lemma UnansweredFirst(name: Text, rest: seq<Text>, callback: Text -> int)
    ensures Unanswered([name] + rest, callback) <==> callback(name) == 0 && Unanswered(rest, callback)
  {
    var all := [name] + rest;
    assert all[0] == name && forall i :: 0 < i < |all| ==> all[i] == rest[i - 1];
    assert forall i :: 0 <= i < |rest| ==> rest[i] == all[i + 1];
  }

  /** As long as nothing is answered, the walk goes on to the entries behind. */
  lemma {:induction false} WalkPasses(done: seq<Text>, dirs: seq<Text>, more: seq<Text>, base: Text,
                                      callback: Text -> int)
    requires Composable(dirs, base) && Unanswered(FileNames(dirs, base), callback)
    ensures WalkFrom(done, dirs + more, base, callback)
            == WalkFrom(done + FileNames(dirs, base), more, base, callback)
    decreases |dirs|
  {
    hide FileName, FileNames, Composable, Unanswered;
    if dirs == [] {
      NoNames(base);
      assert dirs + more == more && done + [] == done;
    } else {
      var name, rest := FileName(dirs[0], base), dirs[1..];
      FileNamesFirst(dirs, base);
      ComposableFirst(dirs, base);
      UnansweredFirst(name, FileNames(rest, base), callback);
      assert (dirs + more)[1..] == rest + more;
      WalkPasses(done + [name], rest, more, base, callback);
      assert done + [name] + FileNames(rest, base) == done + ([name] + FileNames(rest, base));
    }
  }

  lemma NoNames(base: Text)
    ensures FileNames([], base) == []
  {
  }

  /** The walk stops at the first name that is answered. */
  lemma {:induction false} WalkStops(done: seq<Text>, dirs: seq<Text>, more: seq<Text>, base: Text,
                                     callback: Text -> int)
    returns (k: nat)
    requires Composable(dirs, base) && !Unanswered(FileNames(dirs, base), callback)
    ensures Stops(WalkFrom(done, dirs + more, base, callback), done, FileNames(dirs, base), callback, k)
    decreases |dirs|
  {
    hide FileName, FileNames, Composable, Unanswered;
    if dirs == [] {
      NoNames(base);
      NothingUnanswered(callback);
      assert false;
    } else {
      var name, rest := FileName(dirs[0], base), dirs[1..];
      var names := FileNames(dirs, base);
      FileNamesFirst(dirs, base);
      ComposableFirst(dirs, base);
      UnansweredFirst(name, FileNames(rest, base), callback);
      assert (dirs + more)[1..] == rest + more;
      if callback(name) != 0 {
        NothingUnanswered(callback);
        assert names[..1] == [name];
        k := 0;
      } else {
        k := WalkStops(done + [name], rest, more, base, callback);
        StopsLater(WalkFrom(done, dirs + more, base, callback), done, name, FileNames(rest, base), callback, k);
        k := k + 1;
      }
    }
  }

  lemma NothingUnanswered(callback: Text -> int)
    ensures Unanswered([], callback)
  {
  }

  /** Name `k` is the first that is answered, and nothing is asked behind it. */
  ghost predicate Stops(walk: Walk, done: seq<Text>, names: seq<Text>, callback: Text -> int, k: nat) {
    && k < |names| && callback(names[k]) != 0 && Unanswered(names[..k], callback)
    && walk == Walk(done + names[..k + 1], Answered(callback(names[k])))
  }

  lemma StopsLater(walk: Walk, done: seq<Text>, name: Text, names: seq<Text>, callback: Text -> int, k: nat)
    requires Stops(walk, done + [name], names, callback, k) && callback(name) == 0
    ensures Stops(walk, done, [name] + names, callback, k + 1)
  {
    hide Unanswered;
    var all := [name] + names;
    assert all[..k + 1] == [name] + names[..k] && all[..k + 2] == [name] + names[..k + 1];
    UnansweredFirst(name, names[..k], callback);
    assert done + [name] + names[..k + 1] == done + all[..k + 2];
  }

  /** What `foreach_dirinpath` does on a path. */
  ghost function PathWalk(path: Text, base: Text, callback: Text -> int): Walk {
    if path == [] then Walk([], NoPath) else WalkFrom([], Visited(path), base, callback)
  }

  /**
   The callback is asked about a name in every directory of the path, in their order, up to the first
   that it answers. Where none is answered, everything depends on the last element of the path that
   is not empty: if it names something, the walk is over; otherwise there is one more entry, an
   empty name. It is handed to the callback when there is no base name, and read in front of when
   there is one.
   */
  lemma WalkMeaning(path: Text, base: Text, callback: Text -> int)
    requires NulFree(path) && path != []
    ensures var walk, names := PathWalk(path, base, callback), FileNames(Kept(Elements(path)), base);
      if !Unanswered(names, callback) then exists k :: Stops(walk, [], names, callback, k)
      else if LastNames(Elements(path)) then walk == Walk(names, Answered(0))
      else if base != [] then walk == Walk(names, OutOfBounds)
      else walk == Walk(names + [[]], Answered(callback([])))
    ensures var dirs, names := Kept(Elements(path)), FileNames(Kept(Elements(path)), base);
      |names| == |dirs| && forall i :: 0 <= i < |names| ==> Joined(names[i], dirs[i], base)
  {
    hide Joined, FileNames, Unanswered, Kept, Elements, LastNames, NulFree;
    var dirs := Kept(Elements(path));
    var none: Text := [];
    var more := if LastNames(Elements(path)) then [] else [none];
    DirectoriesOfPath(path);
    var names := FileNames(dirs, base);
    NamesJoined(dirs, base);
    assert Visited(path) == dirs + more;
    if Unanswered(names, callback) {
      WalkPasses([], dirs, more, base, callback);
      assert [] + names == names;
      assert more != [] ==> more[1..] == [];
    } else {
      var k := WalkStops([], dirs, more, base, callback);
      assert Stops(PathWalk(path, base, callback), [], names, callback, k);
    }
  }

  /** The walk reads in front of its block exactly when it comes to the empty name with a base name. */
  lemma OutOfBoundsExactly(path: Text, base: Text, callback: Text -> int)
    requires NulFree(path) && path != []
    ensures PathWalk(path, base, callback).outcome == OutOfBounds
            <==> base != [] && !LastNames(Elements(path))
                 && Unanswered(FileNames(Kept(Elements(path)), base), callback)
  {
    hide FileNames, Unanswered, Kept, Elements, LastNames, NulFree, PathWalk;
    WalkMeaning(path, base, callback);
  }

  lemma CleanOne(c: Byte)
    ensures Clean([c]) == if c == SLASH then [] else [c]
  {
    assert [c][1..] == [] && [c] + [] == [c];
  }

  /** A path of the root directory alone: no callback is asked, and the byte in front of the block is read. */
  lemma RootIsOutOfBounds(base: Text, callback: Text -> int)
    requires base != []
    ensures PathWalk([SLASH], base, callback) == Walk([], OutOfBounds)
  {
    var elems: seq<Text> := [[SLASH]];
    assert JoinColon(elems) == [SLASH];
    SplitOfJoin(elems);
    CleanOne(SLASH);
    assert elems[1..] == [] && Kept(elems) == [];
    hide Elements, JoinColon;
    OnlySlashes();
    LastNamesFirst(elems);
  }

  lemma OnlySlashes()
    ensures !Names([SLASH]) && AllEmpty([])
  {
  }

  /** A doubled colon in the canonical form does no harm: "a:/:b" is walked as "a" and "b". */
  lemma DoubledColonIsHarmless()
    ensures Visited([97, COLON, SLASH, COLON, 98]) == [[97], [98]]
  {
    var path: Text := [97, COLON, SLASH, COLON, 98];
    var elems: seq<Text> := [[97], [SLASH], [98]];
    assert elems[1..] == [[SLASH], [98]] && elems[1..][1..] == [[98]];
    assert JoinColon([[98]]) == [98] && JoinColon(elems[1..]) == [SLASH, COLON, 98];
    assert JoinColon(elems) == path;
    SplitOfJoin(elems);
    CleanOne(97);
    CleanOne(SLASH);
    CleanOne(98);
    assert Kept([[98]]) == [[98]] && Kept(elems[1..]) == [[98]];
    assert Names(elems[2]) by {
      assert elems[2][0] != SLASH;
    }
    assert AllEmpty(elems[2 + 1..]);
  }

  // ---- The code ----

  /** Room for a name: the block is only replaced when it may be too small. */
  method MakeRoom(filename: array<Byte>, dir: Text, base: Text) returns (block: array<Byte>)
    ensures |dir| + 1 + |base| + 1 <= block.Length
    ensures if 1 + |dir| + |base| >= filename.Length then fresh(block) else block == filename
  {
    block := filename;
    if 1 + |dir| + |base| >= filename.Length {
      block := new Byte[1 + |dir| + 1 + |base|];
    }
  }

  /** `strcpy` to a position in the block. */
  method Copy(filename: array<Byte>, at: nat, text: Text)
    requires at + |text| + 1 <= filename.Length
    modifies filename
    ensures filename[..at] == old(filename[..at])
    ensures filename[..at + |text|] == old(filename[..at]) + text && filename[at + |text|] == 0
  {
    forall i | 0 <= i < |text| {
      filename[at + i] := text[i];
    }
    filename[at + |text|] := 0;
    assert filename[..at + |text|] == filename[..at] + filename[at..at + |text|];
  }

  /** Writes a name into the block; `None` when it would have to read in front of it. */
  method Compose(filename: array<Byte>, dir: Text, base: Text) returns (n: Option<nat>)
    requires |dir| + 1 + |base| + 1 <= filename.Length
    modifies filename
    ensures n.None? <==> dir == [] && base != []
    ensures n.Some? ==>
      n.value < filename.Length && filename[..n.value] == FileName(dir, base) && filename[n.value] == 0
    ensures n.Some? ==> Joined(filename[..n.value], dir, base)
  {
    hide Joined;
    Copy(filename, 0, dir);
    var lendir := |dir|;
    assert filename[..lendir] == dir;
    if |base| > 0 {
      if lendir == 0 {
        return None;
      }
      assert filename[..lendir][lendir - 1] == dir[lendir - 1];
      if filename[lendir - 1] != SLASH {
        filename[lendir] := SLASH;
        lendir := lendir + 1;
        assert filename[..lendir] == dir + [SLASH];
      }
      Copy(filename, lendir, base);
    }
    FileNameJoined(dir, base);
    return Some(lendir + |base|);
  }

  /** The loop has come to entry `k`, and what is left of the walk is that over the entries from there on. */
  ghost predicate Walking(dirs: seq<Text>, base: Text, callback: Text -> int, k: nat, entry: Option<nat>,
                          calls: seq<Text>) {
    && k <= |dirs| && entry == (if k < |dirs| then Some(Offset(dirs, k)) else None)
    && WalkFrom(calls, dirs[k..], base, callback) == WalkFrom([], dirs, base, callback)
  }

  lemma WalkBegins(dirs: seq<Text>, base: Text, callback: Text -> int)
    requires AllNulFree(dirs)
    ensures Walking(dirs, base, callback, 0, ArgzVector.NextOf(Encode(dirs), None), [])
  {
    hide WalkFrom, Encode, NulFree;
    assert dirs[0..] == dirs;
    NoEntries();
    if dirs != [] {
      ArgzVector.NextVisits(dirs, 0);
    }
  }

  lemma WalkGoesOn(dirs: seq<Text>, base: Text, callback: Text -> int, k: nat, entry: Option<nat>, calls: seq<Text>)
    requires AllNulFree(dirs) && Walking(dirs, base, callback, k, entry, calls) && entry.Some?
    ensures k < |dirs| && entry.value < |Encode(dirs)|
    ensures entry.value + StrLen(Encode(dirs), entry.value) < |Encode(dirs)|
    ensures ArgzVector.TextAt(Encode(dirs), entry.value) == dirs[k]
    ensures var walk, name := WalkFrom([], dirs, base, callback), FileName(dirs[k], base);
      if dirs[k] == [] && base != [] then walk == Walk(calls, OutOfBounds)
      else if callback(name) != 0 then walk == Walk(calls + [name], Answered(callback(name)))
      else Walking(dirs, base, callback, k + 1, ArgzVector.NextOf(Encode(dirs), entry), calls + [name])
  {
    hide Encode, NulFree, StrLen, ArgzVector.TextAt, ArgzVector.NextOf, Offset, FileName;
    ArgzVector.NextVisits(dirs, k);
    assert dirs[k..][1..] == dirs[k + 1..];
  }

  lemma WalkEnds(dirs: seq<Text>, base: Text, callback: Text -> int, k: nat, calls: seq<Text>)
    requires Walking(dirs, base, callback, k, None, calls)
    ensures WalkFrom([], dirs, base, callback) == Walk(calls, Answered(0))
  {
  }

  /** The loop over the entries. */
  method ForeachEntry(argz: ArgzVector.Argz, base: Text, callback: Text -> int, ghost dirs: seq<Text>)
    returns (outcome: Outcome, ghost calls: seq<Text>)
    requires argz.Valid() && argz.Contents() == Encode(dirs) && AllNulFree(dirs)
    ensures Walk(calls, outcome) == WalkFrom([], dirs, base, callback)
  {
    hide WalkFrom, Walking, FileName, AllNulFree, Encode, StrLen, ArgzVector.NextOf, ArgzVector.TextAt;
    var filename := new Byte[0];
    calls := [];
    ghost var k := 0;
    WalkBegins(dirs, base, callback);
    var dirName := argz.Next(None);
    while dirName.Some?
      invariant fresh(filename) && k <= |dirs| && Walking(dirs, base, callback, k, dirName, calls)
      decreases |dirs| - k
    {
      WalkGoesOn(dirs, base, callback, k, dirName, calls);
      var dir := ArgzVector.TextAt(argz.argz[..argz.len], dirName.value);
      filename := MakeRoom(filename, dir, base);
      var n := Compose(filename, dir, base);
      if n.None? {
        return OutOfBounds, calls;
      }
      var answer := callback(filename[..n.value]);
      calls := calls + [filename[..n.value]];
      if answer != 0 {
        return Answered(answer), calls;
      }
      dirName := argz.Next(dirName);
      k := k + 1;
    }
    WalkEnds(dirs, base, callback, k, calls);
    return Answered(0), calls;
  }

  lemma PathJoins(path: Text, base: Text, callback: Text -> int)
    requires path != []
    ensures var calls := PathWalk(path, base, callback).calls;
      |calls| <= |Visited(path)| && forall i :: 0 <= i < |calls| ==> Joined(calls[i], Visited(path)[i], base)
  {
    hide Joined, Visited, WalkFrom;
    WalkJoins([], Visited(path), base, callback);
  }

  /** `foreach_dirinpath`. */
  method ForeachDirInPath(path: Text, base: Text, callback: Text -> int)
    returns (outcome: Outcome, ghost calls: seq<Text>)
    requires NulFree(path) && NulFree(base)
    ensures Walk(calls, outcome) == PathWalk(path, base, callback)
    ensures path != [] ==>
      && |calls| <= |Visited(path)|
      && forall i :: 0 <= i < |calls| ==> Joined(calls[i], Visited(path)[i], base)
  {
    hide Joined, Canon, Visited, WalkFrom, NulFree, AllNulFree, Separated, Encode, Walking, FileName, StrLen;
    if path == [] {
      return NoPath, [];
    }
    PathJoins(path, base, callback);
    var canonical, dest := CanonicalizePath(path);
    DirectoriesOfPath(path);
    var argz := new ArgzVector.Argz();
    var error := argz.CreateSep(canonical[..dest], COLON, true);
    outcome, calls := ForeachEntry(argz, base, callback, Visited(path));
  }
}
