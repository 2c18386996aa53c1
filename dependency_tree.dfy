/** The dependency-tree printout of `print_dependency_parsing_tree` and
    `_print_children`, with the printed lines collected in a sequence. */
module DependencyTree {
  import opened Annotation

  /** Connector in front of the last child of a node. */
  const LastBranch := "└── "
  /** Connector in front of every earlier child. */
  const MidBranch := "├── "
  /** Indentation segment under a last child. */
  const Blank := "    "
  /** Indentation segment under an earlier child: its later siblings still follow. */
  const Continue := "│   "

  function Connector(isLast: bool): string { if isLast then LastBranch else MidBranch }

  function Extension(isLast: bool): string { if isLast then Blank else Continue }

  /** The characters a child line can start with once its prefix is removed. */
  predicate IsGlyph(c: char) { c == '└' || c == '├' || c == ' ' || c == '│' }

  /** What a child line shows of a token: its text and its dependency label. */
  function Label(t: Token): string { t.text + " [" + t.dep + "]" }

  /** The lines `_print_children(t, prefix)` prints for children `i..` of `t`:
      each child's own line, then, one level deeper, the lines of its subtree. */
  function ChildLinesFrom(t: Token, i: nat, prefix: string): (r: seq<string>)
    requires i <= |t.children|
    ensures forall k :: 0 <= k < |r| ==>
              prefix <= r[k] && |r[k]| > |prefix| && IsGlyph(r[k][|prefix|])
    decreases t, |t.children| - i
  {
    if i == |t.children| then []
    else
      var child := t.children[i];
      var isLast := i == |t.children| - 1;
      var own := prefix + Connector(isLast) + Label(child);
      var below := ChildLinesFrom(child, 0, prefix + Extension(isLast));
      var rest := ChildLinesFrom(t, i + 1, prefix);
      assert prefix <= own && own[|prefix|] == Connector(isLast)[0];
      assert forall k :: 0 <= k < |below| ==>
               prefix <= below[k] && below[k][|prefix|] == Extension(isLast)[0] by {
        forall k | 0 <= k < |below|
          ensures prefix <= below[k] && below[k][|prefix|] == Extension(isLast)[0]
        {
          assert below[k][..|prefix| + 4] == prefix + Extension(isLast);
        }
      }
      [own] + below + rest
  }

  /** The lines `_print_children(t, prefix)` prints. */
  function ChildLines(t: Token, prefix: string): seq<string> {
    ChildLinesFrom(t, 0, prefix)
  }

  /** The lines printed for one token of the document: a header and its
      subtree when the token is a ROOT, nothing otherwise. */
  function RootLines(t: Token): seq<string> {
    if t.dep == "ROOT" then ["ROOT: " + t.text] + ChildLines(t, "") else []
  }

  /** All lines of `print_dependency_parsing_tree` over `doc`. A document
      without a ROOT token prints nothing, and one with a ROOT token prints
      something. */
  function TreeLines(doc: seq<Token>): (r: seq<string>)
    ensures r == [] <==> forall i :: 0 <= i < |doc| ==> doc[i].dep != "ROOT"
  {
    if doc == [] then []
    else
      var front := doc[..|doc| - 1];
      assert forall i :: 0 <= i < |front| ==> front[i] == doc[i];
      TreeLines(front) + RootLines(doc[|doc| - 1])
  }

  // ----- Reference description of the printout: the outline -----

  /** A descendant listed in the outline, with the is-last flags of the path
      from the depth-1 ancestor down to the descendant itself. The path's
      length is the descendant's depth below the subtree's root. */
  datatype Entry = Entry(node: Token, path: seq<bool>)

  /** Prepend one more ancestor flag to each entry's path. */
  function Under(flag: bool, es: seq<Entry>): (r: seq<Entry>)
    ensures |r| == |es|
    ensures forall k :: 0 <= k < |r| ==> r[k] == Entry(es[k].node, [flag] + es[k].path)
  {
    seq(|es|, k requires 0 <= k < |es| => Entry(es[k].node, [flag] + es[k].path))
  }

  /** The descendants reached from children `i..` of `t`, in pre-order, each
      with its path of is-last flags; a child is last when no sibling follows it. */
  function OutlineFrom(t: Token, i: nat): seq<Entry>
    requires i <= |t.children|
    decreases t, |t.children| - i
  {
    if i == |t.children| then []
    else
      var isLast := i == |t.children| - 1;
      [Entry(t.children[i], [isLast])] + Under(isLast, OutlineFrom(t.children[i], 0)) + OutlineFrom(t, i + 1)
  }

  function Outline(t: Token): seq<Entry> { OutlineFrom(t, 0) }

  /** Indentation for a path of ancestor flags: one four-character segment per ancestor. */
  function Indent(flags: seq<bool>): string {
    if flags == [] then "" else Extension(flags[0]) + Indent(flags[1..])
  }

  /** The line an outline entry is printed as under `prefix`: the ancestors'
      indentation, the entry's own connector, then its label. */
  function EntryLine(prefix: string, e: Entry): string
    requires e.path != []
  {
    prefix + Indent(e.path[..|e.path| - 1]) + Connector(e.path[|e.path| - 1]) + Label(e.node)
  }

  /** The indentation of a path at depth d is 4·d characters wide. */
  lemma {:induction false} IndentWidth(flags: seq<bool>)
    ensures |Indent(flags)| == 4 * |flags|
  {
    if flags != [] {
      IndentWidth(flags[1..]);
    }
  }

  /** One line per descendant: the outline has exactly the descendants of `t`
      (all nodes of its subtree but `t` itself). */
  lemma {:induction false} OutlineSize(t: Token, i: nat)
    requires i <= |t.children|
    ensures |OutlineFrom(t, i)| == SizeOfChildren(t, i)
    decreases t, |t.children| - i
  {
    if i < |t.children| {
      OutlineSize(t.children[i], 0);
      OutlineSize(t, i + 1);
    }
  }

  predicate PathsNonEmpty(es: seq<Entry>) {
    forall k :: 0 <= k < |es| ==> es[k].path != []
  }

  /** The lines an outline is printed as under `prefix`, entry by entry. */
  function Render(prefix: string, es: seq<Entry>): (r: seq<string>)
    requires PathsNonEmpty(es)
    ensures |r| == |es|
  {
    seq(|es|, k requires 0 <= k < |es| => EntryLine(prefix, es[k]))
  }

  /** Under an extra ancestor, an entry is printed with that ancestor's segment
      appended to the prefix. */
  lemma EntryLineUnder(flag: bool, prefix: string, e: Entry)
    requires e.path != []
    ensures EntryLine(prefix, Entry(e.node, [flag] + e.path)) == EntryLine(prefix + Extension(flag), e)
  {
    var p := e.path;
    var q := [flag] + p;
    assert q[..|q| - 1] == [flag] + p[..|p| - 1];
    assert ([flag] + p[..|p| - 1])[1..] == p[..|p| - 1];
  }

  lemma RenderUnder(flag: bool, prefix: string, es: seq<Entry>)
    requires PathsNonEmpty(es)
    ensures PathsNonEmpty(Under(flag, es))
    ensures Render(prefix, Under(flag, es)) == Render(prefix + Extension(flag), es)
  {
    forall k | 0 <= k < |es|
      ensures Render(prefix, Under(flag, es))[k] == Render(prefix + Extension(flag), es)[k]
    {
      EntryLineUnder(flag, prefix, es[k]);
    }
  }

  /** Every outline entry has a path of at least one flag (its own). */
  lemma {:induction false} OutlinePaths(t: Token, i: nat)
    requires i <= |t.children|
    ensures PathsNonEmpty(OutlineFrom(t, i))
    decreases t, |t.children| - i
  {
    if i < |t.children| {
      OutlinePaths(t.children[i], 0);
      OutlinePaths(t, i + 1);
      OutlineSplit(t, i);
    }
  }

  /** The printout of `_print_children` is the outline, line by line: the k-th
      line shows the k-th descendant in pre-order, behind the caller's prefix,
      one indentation segment per ancestor below `t` ("    " under a last
      child, "│   " under an earlier one), and its own connector ("└── " when
      it is the last of its siblings, "├── " otherwise). */
  lemma {:induction false} ChildLinesAsOutline(t: Token, i: nat, prefix: string)
    requires i <= |t.children|
    ensures PathsNonEmpty(OutlineFrom(t, i))
    ensures ChildLinesFrom(t, i, prefix) == Render(prefix, OutlineFrom(t, i))
    decreases t, |t.children| - i
  {
    if i < |t.children| {
      var child := t.children[i];
      var isLast := i == |t.children| - 1;
      var ext := prefix + Extension(isLast);
      var below := OutlineFrom(child, 0);
      var rest := OutlineFrom(t, i + 1);
      var head := [Entry(child, [isLast])];
      ChildLinesAsOutline(child, 0, ext);
      ChildLinesAsOutline(t, i + 1, prefix);
      RenderUnder(isLast, prefix, below);
      var under := Under(isLast, below);
      RenderHead(prefix, child, isLast);
      RenderThree(prefix, head, under, rest);
      assert OutlineFrom(t, i) == head + under + rest;
      ChildLinesSplit(t, i, prefix);
    }
  }

  lemma ChildLinesSplit(t: Token, i: nat, prefix: string)
    requires i < |t.children|
    ensures var isLast := i == |t.children| - 1;
            ChildLinesFrom(t, i, prefix) ==
            [prefix + Connector(isLast) + Label(t.children[i])] +
            ChildLinesFrom(t.children[i], 0, prefix + Extension(isLast)) + ChildLinesFrom(t, i + 1, prefix)
  {
  }

  /** A child's own entry is printed as its connector and label. */
  lemma RenderHead(prefix: string, child: Token, isLast: bool)
    ensures PathsNonEmpty([Entry(child, [isLast])])
    ensures Render(prefix, [Entry(child, [isLast])]) == [prefix + Connector(isLast) + Label(child)]
  {
    var e := Entry(child, [isLast]);
    assert [isLast][..0] == [] && Indent([]) == "";
    assert EntryLine(prefix, e) == prefix + Connector(isLast) + Label(child);
  }

  lemma RenderThree(prefix: string, a: seq<Entry>, b: seq<Entry>, c: seq<Entry>)
    requires PathsNonEmpty(a) && PathsNonEmpty(b) && PathsNonEmpty(c)
    ensures PathsNonEmpty(a + b + c)
    ensures Render(prefix, a + b + c) == Render(prefix, a) + Render(prefix, b) + Render(prefix, c)
  {
    RenderAppend(prefix, a, b);
    RenderAppend(prefix, a + b, c);
  }

  lemma RenderAppend(prefix: string, a: seq<Entry>, b: seq<Entry>)
    requires PathsNonEmpty(a) && PathsNonEmpty(b)
    ensures PathsNonEmpty(a + b)
    ensures Render(prefix, a + b) == Render(prefix, a) + Render(prefix, b)
  {
    assert PathsNonEmpty(a + b) by {
      forall k | 0 <= k < |a + b| ensures (a + b)[k].path != [] {
        if k >= |a| { assert (a + b)[k] == b[k - |a|]; }
      }
    }
    forall k | 0 <= k < |a + b|
      ensures Render(prefix, a + b)[k] == (Render(prefix, a) + Render(prefix, b))[k]
    {
      if k >= |a| { assert (a + b)[k] == b[k - |a|]; }
    }
  }

  /** How the outline of children `i..` is laid out: the child's own entry,
      then its subtree's entries one level deeper, then the later children's. */
  lemma OutlineSplit(t: Token, i: nat)
    requires i < |t.children|
    ensures var o := OutlineFrom(t, i);
            var below := Outline(t.children[i]);
            var rest := OutlineFrom(t, i + 1);
            var isLast := i == |t.children| - 1;
            |o| == 1 + |below| + |rest| &&
            o[0] == Entry(t.children[i], [isLast]) &&
            (forall j :: 0 <= j < |below| ==>
               o[1 + j].node == below[j].node && o[1 + j].path == [isLast] + below[j].path) &&
            (forall j :: 0 <= j < |rest| ==> o[1 + |below| + j] == rest[j])
  {
    var isLast := i == |t.children| - 1;
    var below := Outline(t.children[i]);
    var under := Under(isLast, below);
    var rest := OutlineFrom(t, i + 1);
    var o := OutlineFrom(t, i);
    assert o == [Entry(t.children[i], [isLast])] + under + rest;
    forall j | 0 <= j < |below| ensures o[1 + j] == under[j] { }
    forall j | 0 <= j < |rest| ensures o[1 + |below| + j] == rest[j] { }
  }

  /** The part of `OutlineSplit` about the later children alone. */
  lemma OutlineSplitRest(t: Token, i: nat)
    requires i < |t.children|
    ensures var o := OutlineFrom(t, i);
            var rest := OutlineFrom(t, i + 1);
            |o| == 1 + |Outline(t.children[i])| + |rest| &&
            (forall j :: 0 <= j < |rest| ==> o[1 + |Outline(t.children[i])| + j] == rest[j])
  {
    OutlineSplit(t, i);
  }

  /** The entries of `o` from `start` on are those of `b`, with `path` in
      front of their paths. */
  predicate BlockAt(o: seq<Entry>, start: nat, path: seq<bool>, b: seq<Entry>) {
    start + |b| <= |o| &&
    forall j :: 0 <= j < |b| ==> o[start + j].node == b[j].node && o[start + j].path == path + b[j].path
  }

  /** The outline is nested: right after each entry come exactly the entries of
      its own subtree, in their own pre-order, with paths that extend the
      entry's path. */
  lemma {:induction false} OutlineBlocks(t: Token, i: nat, k: nat)
    requires i <= |t.children| && k < |OutlineFrom(t, i)|
    ensures BlockAt(OutlineFrom(t, i), k + 1, OutlineFrom(t, i)[k].path, Outline(OutlineFrom(t, i)[k].node))
    decreases t, |t.children| - i, 1
  {
    if k == 0 {
      OutlineBlocksHead(t, i);
      assert OutlineFrom(t, i)[k] == OutlineFrom(t, i)[0] && k + 1 == 1;
    } else if k <= |Outline(t.children[i])| {
      OutlineBlocksBelow(t, i, k);
    } else {
      OutlineBlocksRest(t, i, k - 1 - |Outline(t.children[i])|, k);
    }
  }

  /** The subtree of the first child is the block right after its entry. */
  lemma OutlineBlocksHead(t: Token, i: nat)
    requires i < |t.children|
    ensures BlockAt(OutlineFrom(t, i), 1, OutlineFrom(t, i)[0].path, Outline(OutlineFrom(t, i)[0].node))
  {
    OutlineSplit(t, i);
    BlockHead(OutlineFrom(t, i), Outline(t.children[i]), t.children[i], i == |t.children| - 1);
  }

  lemma BlockHead(o: seq<Entry>, below: seq<Entry>, child: Token, isLast: bool)
    requires 1 + |below| <= |o| && below == Outline(child)
    requires o[0] == Entry(child, [isLast])
    requires forall j :: 0 <= j < |below| ==>
               o[1 + j].node == below[j].node && o[1 + j].path == [isLast] + below[j].path
    ensures BlockAt(o, 1, o[0].path, Outline(o[0].node))
  {
  }

  lemma {:induction false} OutlineBlocksBelow(t: Token, i: nat, k: nat)
    requires i < |t.children| && 1 <= k <= |Outline(t.children[i])| && k < |OutlineFrom(t, i)|
    ensures BlockAt(OutlineFrom(t, i), k + 1, OutlineFrom(t, i)[k].path, Outline(OutlineFrom(t, i)[k].node))
    decreases t, |t.children| - i, 0
  {
    OutlineSplit(t, i);
    OutlineBlocks(t.children[i], 0, k - 1);
    BlockUnder(OutlineFrom(t, i), Outline(t.children[i]), i == |t.children| - 1, k);
  }

  /** Entry k lies in the later children's part of the outline, at position m of it. */
  lemma {:induction false} OutlineBlocksRest(t: Token, i: nat, m: nat, k: nat)
    requires i < |t.children| && m < |OutlineFrom(t, i + 1)| && k == 1 + |Outline(t.children[i])| + m
    ensures k < |OutlineFrom(t, i)|
    ensures BlockAt(OutlineFrom(t, i), k + 1, OutlineFrom(t, i)[k].path, Outline(OutlineFrom(t, i)[k].node))
    decreases t, |t.children| - i, 0
  {
    OutlineSplitRest(t, i);
    OutlineBlocks(t, i + 1, m);
    BlockInRest(OutlineFrom(t, i), 1 + |Outline(t.children[i])|, OutlineFrom(t, i + 1), m, k);
  }

  /** A block inside the subtree of one child stays a block, one level deeper. */
  lemma BlockUnder(o: seq<Entry>, below: seq<Entry>, isLast: bool, k: nat)
    requires 1 <= k <= |below| && 1 + |below| <= |o|
    requires forall j :: 0 <= j < |below| ==>
               o[1 + j].node == below[j].node && o[1 + j].path == [isLast] + below[j].path
    requires BlockAt(below, k, below[k - 1].path, Outline(below[k - 1].node))
    ensures BlockAt(o, k + 1, o[k].path, Outline(o[k].node))
  {
    var b := Outline(below[k - 1].node);
    var p := below[k - 1].path;
    assert o[1 + (k - 1)].node == below[k - 1].node && o[1 + (k - 1)].path == [isLast] + p;
    assert o[k] == o[1 + (k - 1)];
    forall j | 0 <= j < |b|
      ensures o[k + 1 + j].node == b[j].node && o[k + 1 + j].path == ([isLast] + p) + b[j].path
    {
      assert below[k + j].node == b[j].node && below[k + j].path == p + b[j].path;
      assert o[1 + (k + j)].path == [isLast] + below[k + j].path;
      assert o[k + 1 + j] == o[1 + (k + j)];
      assert [isLast] + (p + b[j].path) == ([isLast] + p) + b[j].path;
    }
  }

  /** A block among the later children's entries stays a block after the shift. */
  lemma BlockInRest(o: seq<Entry>, offset: nat, rest: seq<Entry>, m: nat, k: nat)
    requires m < |rest| && offset + |rest| == |o| && k == offset + m
    requires forall j :: 0 <= j < |rest| ==> o[offset + j] == rest[j]
    requires BlockAt(rest, m + 1, rest[m].path, Outline(rest[m].node))
    ensures BlockAt(o, k + 1, o[k].path, Outline(o[k].node))
  {
    var b := Outline(rest[m].node);
    assert o[k] == rest[m];
    forall j | 0 <= j < |b|
      ensures o[k + 1 + j].node == b[j].node && o[k + 1 + j].path == rest[m].path + b[j].path
    {
      assert o[offset + (m + 1 + j)] == rest[m + 1 + j];
    }
  }

  lemma {:induction false} IndentAppend(a: seq<bool>, b: seq<bool>)
    ensures Indent(a + b) == Indent(a) + Indent(b)
  {
    if a == [] {
      assert a + b == b;
    } else {
      assert (a + b)[1..] == a[1..] + b;
      IndentAppend(a[1..], b);
    }
  }

  /** Indentation grows by one segment per level: the line of an entry at
      depth d carries 4·(d−1) characters of indentation behind the caller's
      prefix, and every line of the entry's subtree starts with that
      indentation plus the entry's own segment ("    " when it is a last
      child, "│   " otherwise). */
  lemma SubtreeIndentation(t: Token, prefix: string, k: nat)
    requires k < |Outline(t)|
    ensures var o := Outline(t);
            var lines := ChildLines(t, prefix);
            var path := o[k].path;
            |lines| == |o| && path != [] && k + |Outline(o[k].node)| < |o| &&
            |IndentOf(prefix, o[k])| == |prefix| + 4 * (|path| - 1) &&
            IndentOf(prefix, o[k]) <= lines[k] &&
            forall j :: k < j <= k + |Outline(o[k].node)| ==>
              IndentOf(prefix, o[k]) + Extension(path[|path| - 1]) <= lines[j]
  {
    var o := Outline(t);
    var lines := ChildLines(t, prefix);
    ChildLinesAsOutline(t, 0, prefix);
    OutlineBlocks(t, 0, k);
    var e := o[k];
    var b := Outline(e.node);
    OutlinePaths(e.node, 0);
    OwnLine(prefix, e);
    forall j | k < j <= k + |b|
      ensures IndentOf(prefix, e) + Extension(e.path[|e.path| - 1]) <= lines[j]
    {
      var d := b[j - k - 1];
      assert o[k + 1 + (j - k - 1)].node == d.node && o[k + 1 + (j - k - 1)].path == e.path + d.path;
      assert o[j] == Entry(d.node, e.path + d.path);
      DescendantLine(prefix, e, d);
    }
  }

  /** The indentation (behind the caller's prefix) of an entry's own line. */
  function IndentOf(prefix: string, e: Entry): string
    requires e.path != []
  {
    prefix + Indent(e.path[..|e.path| - 1])
  }

  lemma OwnLine(prefix: string, e: Entry)
    requires e.path != []
    ensures |IndentOf(prefix, e)| == |prefix| + 4 * (|e.path| - 1)
    ensures IndentOf(prefix, e) <= EntryLine(prefix, e)
  {
    IndentWidth(e.path[..|e.path| - 1]);
    var own := Connector(e.path[|e.path| - 1]) + Label(e.node);
    assert (IndentOf(prefix, e) + own)[..|IndentOf(prefix, e)|] == IndentOf(prefix, e);
  }

  /** Every line begins with the prefix it is printed under. */
  lemma LineStartsWithPrefix(prefix: string, e: Entry)
    requires e.path != []
    ensures prefix <= EntryLine(prefix, e)
  {
    var own := Indent(e.path[..|e.path| - 1]) + Connector(e.path[|e.path| - 1]) + Label(e.node);
    assert EntryLine(prefix, e) == prefix + own;
    assert (prefix + own)[..|prefix|] == prefix;
  }

  /** An entry at the end of `path` is printed as it would be on its own,
      under the prefix extended by the indentation of `path`. */
  lemma {:induction false} EntryLineNested(prefix: string, path: seq<bool>, d: Entry)
    requires d.path != []
    ensures EntryLine(prefix, Entry(d.node, path + d.path)) == EntryLine(prefix + Indent(path), d)
    decreases |path|
  {
    if path == [] {
      assert path + d.path == d.path && prefix + Indent(path) == prefix;
    } else {
      var f, more := path[0], path[1..];
      var deeper := prefix + Extension(f);
      assert deeper + Indent(more) == prefix + Indent(path);
      assert path + d.path == [f] + (more + d.path);
      EntryLineUnder(f, prefix, Entry(d.node, more + d.path));
      EntryLineNested(deeper, more, d);
    }
  }

  /** The indentation of a path ends with the segment of its last flag. */
  lemma {:induction false} IndentLast(path: seq<bool>)
    requires path != []
    ensures Indent(path) == Indent(path[..|path| - 1]) + Extension(path[|path| - 1])
    decreases |path|
  {
    var rest := path[1..];
    if rest == [] {
      assert path[..|path| - 1] == [];
    } else {
      IndentLast(rest);
      var front := path[..|path| - 1];
      assert front[0] == path[0] && front[1..] == rest[..|rest| - 1];
      assert Indent(front) == Extension(path[0]) + Indent(rest[..|rest| - 1]);
      assert rest[|rest| - 1] == path[|path| - 1];
    }
  }

  lemma DescendantLine(prefix: string, e: Entry, d: Entry)
    requires e.path != [] && d.path != []
    ensures IndentOf(prefix, e) + Extension(e.path[|e.path| - 1]) <= EntryLine(prefix, Entry(d.node, e.path + d.path))
  {
    var path := e.path;
    IndentLast(path);
    assert IndentOf(prefix, e) + Extension(path[|path| - 1]) == prefix + Indent(path);
    EntryLineNested(prefix, path, d);
    LineStartsWithPrefix(prefix + Indent(path), d);
  }

  // ----- The document-level printout -----

  /** The header lines of a printout: those that start with "ROOT: ". */
  function Headers(lines: seq<string>): seq<string> {
    if lines == [] then []
    else (if "ROOT: " <= lines[0] then [lines[0]] else []) + Headers(lines[1..])
  }

  /** One header per ROOT token of `doc`, in document order. */
  function RootHeaders(doc: seq<Token>): seq<string> {
    if doc == [] then []
    else RootHeaders(doc[..|doc| - 1]) + (if doc[|doc| - 1].dep == "ROOT" then ["ROOT: " + doc[|doc| - 1].text] else [])
  }

  lemma {:induction false} HeadersAppend(a: seq<string>, b: seq<string>)
    ensures Headers(a + b) == Headers(a) + Headers(b)
  {
    if a == [] {
      assert a + b == b;
    } else {
      assert (a + b)[1..] == a[1..] + b;
      HeadersAppend(a[1..], b);
    }
  }

  /** No line printed below a ROOT is a header. */
  lemma {:induction false} NoHeadersBelowRoot(lines: seq<string>)
    requires forall k :: 0 <= k < |lines| ==> |lines[k]| > 0 && IsGlyph(lines[k][0])
    ensures Headers(lines) == []
  {
    if lines != [] {
      assert lines[0][0] != "ROOT: "[0];
      NoHeadersBelowRoot(lines[1..]);
    }
  }

  /** The printout has one "ROOT: <text>" header per ROOT token, in document
      order, and no other line that reads as a header. */
  lemma {:induction false} TreeHeaders(doc: seq<Token>)
    ensures Headers(TreeLines(doc)) == RootHeaders(doc)
  {
    if doc != [] {
      var front, t := doc[..|doc| - 1], doc[|doc| - 1];
      TreeHeaders(front);
      HeadersAppend(TreeLines(front), RootLines(t));
      if t.dep == "ROOT" {
        var below := ChildLines(t, "");
        assert forall k :: 0 <= k < |below| ==> "" <= below[k] && |below[k]| > 0 && IsGlyph(below[k][0]);
        NoHeadersBelowRoot(below);
        HeadersAppend(["ROOT: " + t.text], below);
        assert Headers(["ROOT: " + t.text]) == ["ROOT: " + t.text] by {
          assert "ROOT: " <= "ROOT: " + t.text;
          assert Headers(["ROOT: " + t.text][1..]) == [];
        }
      } else {
        assert RootLines(t) == [] && Headers([]) == [];
      }
    }
  }

  /** The printout of each ROOT is its header plus one line per descendant. */
  lemma {:induction false} RootLinesCount(t: Token)
    ensures |RootLines(t)| == if t.dep == "ROOT" then Size(t) else 0
  {
    ChildLinesAsOutline(t, 0, "");
    OutlineSize(t, 0);
  }
}
