// source/loader/riivo_patch_loader.c, lines 232-326: combining paths and registering whole folders.

module FolderPatch {
  import opened CStrings
  import opened PatchLoader

  // ---- Combining two paths ----

  predicate EndsWithSlash(path: CString) { path != [] && path[|path| - 1] == '/' }

  function NoLeadingSlash(path: CString): CString { if path != [] && path[0] == '/' then path[1..] else path }

  /** One slash between two non-empty paths. */
  function Joined(left: CString, right: CString): CString {
    if left == [] then right
    else if right == [] then left
    else left + (if EndsWithSlash(left) then [] else ['/']) + NoLeadingSlash(right)
  }

  function Combined(left: CString, right: CString): CString { Lower(Joined(left, right)) }

  /** As much of a path as a buffer has room for. */
  function Fitting(path: CString, size: nat): CString
    requires size > 0
  {
    if |path| < size then path else path[..size - 1]
  }

  /**
   * `_rrc_riivo_combine_paths`: the combined path as far as it fits. A lone path has to fit, because `strncpy`
   * does not terminate one it cuts. With both lengths and two, as its callers allocate, nothing is cut.
   */
  method CombinePaths(left: CString, right: CString, out: array<char>)
    requires out.Length > 0 && (left == [] || right == [] ==> |left| + |right| < out.Length)
    modifies out
    ensures HoldsText(out[..], Fitting(Combined(left, right), out.Length))
    ensures |left| + |right| + 2 <= out.Length ==> HoldsText(out[..], Combined(left, right))
  {
    var text: CString;
    if left == [] {
      text := right;
    } else if right == [] {
      text := left;
    } else {
      text := left + (if left[|left| - 1] == '/' then [] else ['/']) + (if right[0] == '/' then right[1..] else right);
    }
    var fit := Fitting(text, out.Length);
    forall i | 0 <= i < |fit| {
      out[i] := fit[i];
    }
    out[|fit|] := '\0';
    StrLower(out, fit);
    assert Lower(fit) == Fitting(Lower(text), out.Length);
  }

  /** `strlower` */
  method StrLower(str: array<char>, ghost t: CString)
    requires HoldsText(str[..], t)
    modifies str
    ensures HoldsText(str[..], Lower(t))
  {
    var i := 0;
    assert forall j :: 0 <= j < |t| ==> str[j] == str[..|t|][j];
    while str[i] != '\0'
      invariant 0 <= i <= |t| < str.Length && str[|t|] == '\0'
      invariant forall j :: 0 <= j < i ==> str[j] == ToLower(t[j])
      invariant forall j :: i <= j < |t| ==> str[j] == t[j]
      decreases |t| - i
    {
      str[i] := ToLower(str[i]);
      i := i + 1;
    }
    assert str[..|t|] == Lower(t);
  }

  function WithSlash(path: CString): CString { if EndsWithSlash(path) then path else path + ['/'] }

  lemma JoinedParts(a: CString, b: CString)
    requires a != [] && b != []
    ensures Joined(a, b) == WithSlash(a) + NoLeadingSlash(b)
  {
    assert EndsWithSlash(a) ==> a + [] == a;
  }

  lemma WithSlashOfConcat(a: CString, b: CString)
    requires EndsWithSlash(a)
    ensures WithSlash(a + b) == if b == [] then a else a + WithSlash(b)
  {
    if b == [] {
      assert a + b == a;
    } else {
      assert (a + b)[|a + b| - 1] == b[|b| - 1];
      assert a + (b + ['/']) == a + b + ['/'];
    }
  }

  lemma WithSlashOfTail(b: CString)
    requires b != [] && NoLeadingSlash(b) != []
    ensures WithSlash(NoLeadingSlash(b)) == NoLeadingSlash(WithSlash(b))
  {
  }

  lemma JoinedNonEmpty(a: CString, b: CString)
    requires a != [] && b != []
    ensures Joined(a, b) == WithSlash(a) + NoLeadingSlash(b) && Joined(a, b) != []
    ensures WithSlash(Joined(a, b)) == if b == "/" then WithSlash(a) else WithSlash(a) + NoLeadingSlash(WithSlash(b))
  {
    JoinedParts(a, b);
    WithSlashOfConcat(WithSlash(a), NoLeadingSlash(b));
    if b != "/" {
      assert NoLeadingSlash(b) != [];
      WithSlashOfTail(b);
    }
  }

  lemma NoLeadingSlashOfConcat(a: CString, b: CString)
    requires a != []
    ensures NoLeadingSlash(a + b) == NoLeadingSlash(a) + b
  {
  }

  lemma JoinedLeftFirst(a: CString, b: CString, c: CString)
    requires a != [] && b != [] && c != []
    ensures Joined(Joined(a, b), c) == WithSlash(a) + (NoLeadingSlash(WithSlash(b)) + NoLeadingSlash(c))
  {
    var tail := NoLeadingSlash(c);
    JoinedNonEmpty(a, b);
    JoinedParts(Joined(a, b), c);
    if b == "/" {
      assert NoLeadingSlash(WithSlash(b)) + tail == tail;
    } else {
      Regroup(WithSlash(a), NoLeadingSlash(WithSlash(b)), tail);
    }
  }

  lemma JoinedRightFirst(a: CString, b: CString, c: CString)
    requires a != [] && b != [] && c != []
    ensures Joined(a, Joined(b, c)) == WithSlash(a) + (NoLeadingSlash(WithSlash(b)) + NoLeadingSlash(c))
  {
    JoinedNonEmpty(b, c);
    JoinedParts(a, Joined(b, c));
    NoLeadingSlashOfConcat(WithSlash(b), NoLeadingSlash(c));
  }

  /** Nested folders may be combined in either order. */
  lemma JoinedAssociative(a: CString, b: CString, c: CString)
    ensures Joined(Joined(a, b), c) == Joined(a, Joined(b, c))
  {
    if a != [] && b != [] && c != [] {
      JoinedLeftFirst(a, b, c);
      JoinedRightFirst(a, b, c);
    }
  }

  lemma LowerOfConcat(a: CString, b: CString)
    ensures Lower(a + b) == Lower(a) + Lower(b)
  {
  }

  lemma LowerKeepsSlashes(a: CString)
    ensures EndsWithSlash(Lower(a)) == EndsWithSlash(a) && NoLeadingSlash(Lower(a)) == Lower(NoLeadingSlash(a))
    ensures Lower(WithSlash(a)) == WithSlash(Lower(a))
  {
  }

  lemma LowerOfJoined(a: CString, b: CString)
    ensures Lower(Joined(a, b)) == Joined(Lower(a), Lower(b))
  {
    if a != [] && b != [] {
      JoinedParts(a, b);
      JoinedParts(Lower(a), Lower(b));
      LowerKeepsSlashes(a);
      LowerKeepsSlashes(b);
      LowerOfConcat(WithSlash(a), NoLeadingSlash(b));
    }
  }

  lemma CombinedAssociative(a: CString, b: CString, c: CString)
    ensures Combined(Combined(a, b), c) == Combined(a, Joined(b, c))
  {
    LowerOfJoined(a, b);
    LowerOfJoined(Combined(a, b), c);
    LowerOfJoined(a, Joined(b, c));
    LowerOfJoined(b, c);
    LowerIdempotent(Joined(a, b));
    JoinedAssociative(Lower(a), Lower(b), Lower(c));
  }

  // ---- Walking a folder ----

  /** What `readdir` yields: a regular file, a folder, or something else. */
  datatype Node = File(name: CString) | Dir(name: CString, opens: bool, children: seq<Node>) | Other(name: CString)

  datatype Walked = Walked(regs: seq<Registration>, ok: bool)

  predicate IsDot(name: CString) { name == "." || name == ".." }

  function WalkNode(node: Node, disc: CString, external: CString, recursive: bool): Walked
    decreases node
  {
    if IsDot(node.name) then Walked([], true)
    else
      match node
      case File(name) => Walked([Registration(Combined(disc, name), Combined(external, name), false)], true)
      case Dir(name, opens, children) =>
        if !recursive then Walked([], true)
        else if !opens then Walked([], false)
        else Walk(children, Combined(disc, name), Combined(external, name), true)
      case Other(_) => Walked([], true)
  }

  /** The registrations of an open folder in order, up to the first subfolder that does not open. */
  function Walk(nodes: seq<Node>, disc: CString, external: CString, recursive: bool): Walked
    decreases nodes
  {
    if nodes == [] then Walked([], true)
    else
      var first := WalkNode(nodes[0], disc, external, recursive);
      if !first.ok then first
      else
        var rest := Walk(nodes[1..], disc, external, recursive);
        Walked(first.regs + rest.regs, rest.ok)
  }

  /** Registering paths that are lower-cased already. */
  function RegisteredFrom(t: Tables, onCard: set<CString>, regs: seq<Registration>): Tables
    decreases regs
  {
    if regs == [] then t else RegisteredFrom(Registered(t, onCard, regs[0]), onCard, regs[1..])
  }

  lemma {:induction false} RegisteredConcat(t: Tables, onCard: set<CString>, a: seq<Registration>, b: seq<Registration>)
    ensures RegisteredFrom(t, onCard, a + b) == RegisteredFrom(RegisteredFrom(t, onCard, a), onCard, b)
    decreases a
  {
    if a == [] {
      assert a + b == b;
    } else {
      assert (a + b)[1..] == a[1..] + b;
      RegisteredConcat(Registered(t, onCard, a[0]), onCard, a[1..], b);
    }
  }

  // ---- What a walk amounts to ----

  /** The paths of all files below, relative to the folder. */
  function RelativePaths(nodes: seq<Node>, recursive: bool): seq<CString>
    decreases nodes
  {
    if nodes == [] then [] else NodePaths(nodes[0], recursive) + RelativePaths(nodes[1..], recursive)
  }

  function NodePaths(node: Node, recursive: bool): seq<CString>
    decreases node
  {
    if IsDot(node.name) then []
    else
      match node
      case File(name) => [name]
      case Dir(name, _, children) => if recursive then Below(name, RelativePaths(children, true)) else []
      case Other(_) => []
  }

  function Below(name: CString, paths: seq<CString>): seq<CString> {
    seq(|paths|, i requires 0 <= i < |paths| => Joined(name, paths[i]))
  }

  function FileUnder(disc: CString, external: CString, path: CString): Registration {
    Registration(Combined(disc, path), Combined(external, path), false)
  }

  /** The registrations for relative paths, all under one disc folder and one SD folder. */
  function Under(disc: CString, external: CString, paths: seq<CString>): seq<Registration> {
    seq(|paths|, i requires 0 <= i < |paths| => FileUnder(disc, external, paths[i]))
  }

  lemma UnderConcat(disc: CString, external: CString, a: seq<CString>, b: seq<CString>)
    ensures Under(disc, external, a + b) == Under(disc, external, a) + Under(disc, external, b)
  {
    var all, parts := Under(disc, external, a + b), Under(disc, external, a) + Under(disc, external, b);
    forall i | 0 <= i < |a + b|
      ensures all[i] == parts[i]
    {
      assert all[i] == FileUnder(disc, external, (a + b)[i]);
    }
  }

  lemma UnderBelow(disc: CString, external: CString, name: CString, paths: seq<CString>)
    ensures Under(Combined(disc, name), Combined(external, name), paths) == Under(disc, external, Below(name, paths))
  {
    forall i | 0 <= i < |paths|
      ensures Under(Combined(disc, name), Combined(external, name), paths)[i]
                == Under(disc, external, Below(name, paths))[i]
    {
      CombinedAssociative(disc, name, paths[i]);
      CombinedAssociative(external, name, paths[i]);
    }
  }

  /** However deep the tree, a complete walk registers each file under its relative path, in order. */
  lemma {:induction false} WalkIsFlat(nodes: seq<Node>, disc: CString, external: CString, recursive: bool)
    requires Walk(nodes, disc, external, recursive).ok
    ensures Walk(nodes, disc, external, recursive).regs == Under(disc, external, RelativePaths(nodes, recursive))
    decreases nodes
  {
    if nodes != [] {
      WalkNodeIsFlat(nodes[0], disc, external, recursive);
      WalkIsFlat(nodes[1..], disc, external, recursive);
      UnderConcat(disc, external, NodePaths(nodes[0], recursive), RelativePaths(nodes[1..], recursive));
    }
  }

  lemma {:induction false} WalkNodeIsFlat(node: Node, disc: CString, external: CString, recursive: bool)
    requires WalkNode(node, disc, external, recursive).ok
    ensures WalkNode(node, disc, external, recursive).regs == Under(disc, external, NodePaths(node, recursive))
    decreases node
  {
    if node.Dir? && !IsDot(node.name) && recursive {
      var paths := RelativePaths(node.children, true);
      WalkIsFlat(node.children, Combined(disc, node.name), Combined(external, node.name), true);
      UnderBelow(disc, external, node.name, paths);
    }
  }

  // ---- Folders within the whole parse ----

  predicate AllNormal(regs: seq<Registration>) {
    forall i :: 0 <= i < |regs| ==> Normalized(regs[i]) == regs[i]
  }

  lemma CombinedIsNormal(disc: CString, external: CString, path: CString)
    ensures Normalized(FileUnder(disc, external, path)) == FileUnder(disc, external, path)
  {
    LowerIdempotent(Joined(disc, path));
    LowerIdempotent(Joined(external, path));
  }

  /** Every path a walk registers is lower-cased, whether or not the walk completes. */
  lemma {:induction false} WalkIsNormal(nodes: seq<Node>, disc: CString, external: CString, recursive: bool)
    ensures AllNormal(Walk(nodes, disc, external, recursive).regs)
    decreases nodes
  {
    if nodes != [] {
      WalkNodeIsNormal(nodes[0], disc, external, recursive);
      WalkIsNormal(nodes[1..], disc, external, recursive);
    }
  }

  lemma {:induction false} WalkNodeIsNormal(node: Node, disc: CString, external: CString, recursive: bool)
    ensures AllNormal(WalkNode(node, disc, external, recursive).regs)
    decreases node
  {
    if node.Dir? {
      WalkIsNormal(node.children, Combined(disc, node.name), Combined(external, node.name), true);
    } else {
      CombinedIsNormal(disc, external, node.name);
    }
  }

  /** A folder behind earlier registrations continues the parse as if its files had been listed one by one. */
  lemma {:induction false} FolderContinuesParse(onCard: set<CString>, regs: seq<Registration>, more: seq<Registration>)
    requires AllNormal(more)
    ensures RegisteredFrom(RegisteredAll(onCard, regs), onCard, more) == RegisteredAll(onCard, regs + more)
    decreases more
  {
    if more == [] {
      assert regs + more == regs;
    } else {
      var next := regs + [more[0]];
      assert next[..|next| - 1] == regs && Normalized(more[0]) == more[0];
      assert next + more[1..] == regs + more;
      FolderContinuesParse(onCard, next, more[1..]);
    }
  }

  // ---- The loops over the tables ----

  /** `_rrc_riivo_handle_folder_patch` on a folder that opened. */
  method HandleFolderPatch(loader: Loader, onCard: set<CString>, discPath: CString, externalPath: CString,
                           nodes: seq<Node>, opens: bool, recursive: bool) returns (ok: bool)
    requires loader.Valid()
    modifies loader, loader.sdFiles, loader.replacements, loader.filenameReplacements
    modifies loader.sdFiles.data, loader.replacements.data, loader.filenameReplacements.data
    ensures loader.Valid()
    ensures var walked := if opens then Walk(nodes, discPath, externalPath, recursive) else Walked([], false);
            ok == walked.ok && loader.State() == RegisteredFrom(old(loader.State()), onCard, walked.regs)
    ensures ArraysKept(loader)
    decreases nodes, 1
  {
    if !opens {
      return false;
    }
    ghost var walked := Walk(nodes, discPath, externalPath, recursive);
    ok := HandleEntries(loader, onCard, discPath, externalPath, nodes, recursive,
                        RegisteredFrom(loader.State(), onCard, walked.regs), walked.ok);
  }

  /** The `readdir` loop: it ends in the tables and the outcome that the walk leads to. */
  method HandleEntries(loader: Loader, onCard: set<CString>, discPath: CString, externalPath: CString,
                       nodes: seq<Node>, recursive: bool, ghost result: Tables, ghost complete: bool) returns (ok: bool)
    requires loader.Valid()
    requires Pending(result, complete, loader.State(), onCard, nodes, discPath, externalPath, recursive)
    modifies loader, loader.sdFiles, loader.replacements, loader.filenameReplacements
    modifies loader.sdFiles.data, loader.replacements.data, loader.filenameReplacements.data
    ensures loader.Valid() && ok == complete && loader.State() == result
    ensures ArraysKept(loader)
    decreases nodes, 0
  {
    var i := 0;
    assert nodes[0..] == nodes;
    while i < |nodes|
      invariant 0 <= i <= |nodes| && loader.Valid()
      invariant Pending(result, complete, loader.State(), onCard, nodes[i..], discPath, externalPath, recursive)
      invariant ArraysKept(loader)
    {
      WalkStep(result, complete, loader.State(), onCard, nodes[i..], discPath, externalPath, recursive);
      assert nodes[i..][0] == nodes[i] && nodes[i..][1..] == nodes[i + 1..];
      ok := HandleNode(loader, onCard, discPath, externalPath, nodes[i], recursive);
      if !ok {
        return;
      }
      i := i + 1;
    }
    ok := true;
  }

  /** Walking the remaining nodes from tables `t` gives the final tables and outcome. */
  predicate Pending(result: Tables, ok: bool, t: Tables, onCard: set<CString>, nodes: seq<Node>,
                    disc: CString, external: CString, recursive: bool) {
    var walked := Walk(nodes, disc, external, recursive);
    ok == walked.ok && result == RegisteredFrom(t, onCard, walked.regs)
  }

  lemma WalkStep(result: Tables, ok: bool, t: Tables, onCard: set<CString>, nodes: seq<Node>,
                 disc: CString, external: CString, recursive: bool)
    requires nodes != [] && Pending(result, ok, t, onCard, nodes, disc, external, recursive)
    ensures var first := WalkNode(nodes[0], disc, external, recursive);
            var t' := RegisteredFrom(t, onCard, first.regs);
            if first.ok then Pending(result, ok, t', onCard, nodes[1..], disc, external, recursive)
            else !ok && result == t'
  {
    var first := WalkNode(nodes[0], disc, external, recursive);
    if first.ok {
      RegisteredConcat(t, onCard, first.regs, Walk(nodes[1..], disc, external, recursive).regs);
    }
  }

  method HandleNode(loader: Loader, onCard: set<CString>, discPath: CString, externalPath: CString,
                    node: Node, recursive: bool) returns (ok: bool)
    requires loader.Valid()
    modifies loader, loader.sdFiles, loader.replacements, loader.filenameReplacements
    modifies loader.sdFiles.data, loader.replacements.data, loader.filenameReplacements.data
    ensures loader.Valid()
    ensures var walked := WalkNode(node, discPath, externalPath, recursive);
            ok == walked.ok && loader.State() == RegisteredFrom(old(loader.State()), onCard, walked.regs)
    ensures ArraysKept(loader)
    decreases node, 2
  {
    ok := true;
    if IsDot(node.name) {
      return;
    }
    var curDiscPath, curExternalPath := Combined(discPath, node.name), Combined(externalPath, node.name);
    if node.File? {
      loader.HandleFilePatch(onCard, curDiscPath, curExternalPath, false);
    } else if recursive && node.Dir? {
      ok := HandleFolderPatch(loader, onCard, curDiscPath, curExternalPath, node.children, node.opens, true);
    }
  }
}
