// source/loader/riivo_patch_loader.c, lines 242-324: joining two names, and what each directory entry registers.

module FolderLaws {
  import opened CStrings
  import opened PatchLoader
  import opened FolderPatch

  /** A part that is empty leaves the other, lower-cased like the rest. */
  lemma CombinedWithNothing(a: CString)
    ensures Combined("", a) == Lower(a) && Combined(a, "") == Lower(a)
  {
  }

  /** Two parts are joined by exactly one slash, whether the first ends in one or the second begins with one. */
  lemma CombinedBySlash(a: CString, b: CString)
    requires a != [] && b != [] && a[|a| - 1] != '/' && b[0] != '/'
    ensures Combined(a, b) == Lower(a + "/" + b)
    ensures Combined(a + "/", b) == Lower(a + "/" + b)
    ensures Combined(a, "/" + b) == Lower(a + "/" + b)
    ensures Combined(a + "/", "/" + b) == Lower(a + "/" + b)
  {
    var withSlash: CString := a + "/";
    assert withSlash[|withSlash| - 1] == '/' && ("/" + b)[1..] == b;
    assert withSlash + [] == withSlash;
  }

  /** The folder itself and the one above are passed over. */
  lemma DotsAreSkipped(node: Node, disc: CString, external: CString, recursive: bool)
    requires node.name == "." || node.name == ".."
    ensures WalkNode(node, disc, external, recursive) == Walked([], true)
  {
  }

  /** A file is registered under both folders' names, not to be checked for existence. */
  lemma FileIsRegistered(name: CString, disc: CString, external: CString, recursive: bool)
    requires name != "." && name != ".."
    ensures WalkNode(File(name), disc, external, recursive)
              == Walked([Registration(Combined(disc, name), Combined(external, name), false)], true)
  {
  }

  /** Subfolders count only when asked for, and then one that does not open is an error. */
  lemma SubfolderIsWalked(name: CString, opens: bool, children: seq<Node>, disc: CString, external: CString)
    requires name != "." && name != ".."
    ensures WalkNode(Dir(name, opens, children), disc, external, false) == Walked([], true)
    ensures WalkNode(Dir(name, false, children), disc, external, true) == Walked([], false)
    ensures WalkNode(Dir(name, true, children), disc, external, true)
              == Walk(children, Combined(disc, name), Combined(external, name), true)
  {
  }
}
