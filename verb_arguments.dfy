/** The verb-argument table of `print_verb_arguments`: for every verb, its
    children sorted into subject, objects and modifiers by dependency label. */
module VerbArguments {
  import opened Annotation

  /** The three buckets of one verb. A modifier keeps its dependency label. */
  datatype Arguments = Arguments(
    subject: seq<string>,
    objects: seq<string>,
    modifiers: seq<(string, string)>)

  const NoArguments := Arguments([], [], [])

  predicate IsModifierLabel(dep: string) { dep == "advmod" || dep == "obl" }

  /** One step of the inner loop: the bucket a child goes to, chosen by its
      label; a child with any other label is dropped. */
  function AddChild(a: Arguments, c: Token): Arguments {
    if c.dep == "nsubj" then a.(subject := a.subject + [c.text])
    else if c.dep == "obj" then a.(objects := a.objects + [c.text])
    else if IsModifierLabel(c.dep) then a.(modifiers := a.modifiers + [(c.text, c.dep)])
    else a
  }

  /** The buckets after visiting `children` left to right. Every child goes
      into at most one bucket: the three buckets together hold exactly as many
      entries as there are children with one of the four labels, never more
      than there are children. */
  function Classify(children: seq<Token>): (r: Arguments)
    ensures |r.subject| + |r.objects| + |r.modifiers| == Kept(children) <= |children|
  {
    if children == [] then NoArguments
    else
      var front, c := children[..|children| - 1], children[|children| - 1];
      assert children == front + [c];
      KeptSnoc(front, c);
      AddChild(Classify(front), c)
  }

  /** The verb table after visiting `doc` left to right: each verb's entry is
      written under its surface text, replacing any earlier entry. A verb
      adds at most one entry, so the table never has more entries than the
      document has tokens. */
  function VerbArgumentMap(doc: seq<Token>): (r: map<string, Arguments>)
    ensures |r| <= |doc|
  {
    if doc == [] then map[]
    else
      var m := VerbArgumentMap(doc[..|doc| - 1]);
      var t := doc[|doc| - 1];
      if IsVerb(t) then m[t.text := Classify(t.children)] else m
  }

  // ----- Reference description of the buckets -----

  /** Texts of the children with dependency label `dep`, in order. */
  function TextsWithLabel(cs: seq<Token>, dep: string): (r: seq<string>)
    ensures |r| <= |cs|
  {
    if cs == [] then []
    else (if cs[0].dep == dep then [cs[0].text] else []) + TextsWithLabel(cs[1..], dep)
  }

  /** (text, label) of the children labelled "advmod" or "obl", in order. */
  function ModifierPairs(cs: seq<Token>): (r: seq<(string, string)>)
    ensures |r| <= |cs|
  {
    if cs == [] then []
    else (if IsModifierLabel(cs[0].dep) then [(cs[0].text, cs[0].dep)] else []) + ModifierPairs(cs[1..])
  }

  /** Number of children that land in some bucket. */
  function Kept(cs: seq<Token>): (n: nat)
    ensures n <= |cs|
  {
    if cs == [] then 0
    else (if cs[0].dep == "nsubj" || cs[0].dep == "obj" || IsModifierLabel(cs[0].dep) then 1 else 0) + Kept(cs[1..])
  }

  lemma {:induction false} TextsSnoc(cs: seq<Token>, c: Token, dep: string)
    ensures TextsWithLabel(cs + [c], dep) == TextsWithLabel(cs, dep) + (if c.dep == dep then [c.text] else [])
  {
    if cs == [] {
      assert [] + [c] == [c];
    } else {
      var head := if cs[0].dep == dep then [cs[0].text] else [];
      var last := if c.dep == dep then [c.text] else [];
      assert (cs + [c])[0] == cs[0];
      assert (cs + [c])[1..] == cs[1..] + [c];
      assert TextsWithLabel(cs + [c], dep) == head + TextsWithLabel(cs[1..] + [c], dep);
      TextsSnoc(cs[1..], c, dep);
      assert TextsWithLabel(cs, dep) == head + TextsWithLabel(cs[1..], dep);
      assert head + (TextsWithLabel(cs[1..], dep) + last) == (head + TextsWithLabel(cs[1..], dep)) + last;
    }
  }

  lemma {:induction false} ModifiersSnoc(cs: seq<Token>, c: Token)
    ensures ModifierPairs(cs + [c]) == ModifierPairs(cs) + (if IsModifierLabel(c.dep) then [(c.text, c.dep)] else [])
  {
    if cs == [] {
      assert [] + [c] == [c];
    } else {
      var head := if IsModifierLabel(cs[0].dep) then [(cs[0].text, cs[0].dep)] else [];
      var last := if IsModifierLabel(c.dep) then [(c.text, c.dep)] else [];
      assert (cs + [c])[0] == cs[0];
      assert (cs + [c])[1..] == cs[1..] + [c];
      assert ModifierPairs(cs + [c]) == head + ModifierPairs(cs[1..] + [c]);
      ModifiersSnoc(cs[1..], c);
      assert ModifierPairs(cs) == head + ModifierPairs(cs[1..]);
      assert head + (ModifierPairs(cs[1..]) + last) == (head + ModifierPairs(cs[1..])) + last;
    }
  }

  /** The buckets are exactly: the "nsubj" children's texts, the "obj"
      children's texts and the "advmod"/"obl" children's (text, label) pairs,
      each in child order. */
  lemma {:induction false} ClassifyBuckets(cs: seq<Token>)
    ensures Classify(cs) == Arguments(TextsWithLabel(cs, "nsubj"), TextsWithLabel(cs, "obj"), ModifierPairs(cs))
  {
    if cs != [] {
      var front, c := cs[..|cs| - 1], cs[|cs| - 1];
      ClassifyBuckets(front);
      assert cs == front + [c];
      TextsSnoc(front, c, "nsubj");
      TextsSnoc(front, c, "obj");
      ModifiersSnoc(front, c);
    }
  }

  lemma {:induction false} KeptSnoc(cs: seq<Token>, c: Token)
    ensures Kept(cs + [c]) == Kept(cs) + (if c.dep == "nsubj" || c.dep == "obj" || IsModifierLabel(c.dep) then 1 else 0)
  {
    if cs == [] {
      assert [] + [c] == [c];
    } else {
      assert (cs + [c])[1..] == cs[1..] + [c];
      KeptSnoc(cs[1..], c);
    }
  }

  /** The table's keys are exactly the surface texts of the verb tokens. */
  lemma {:induction false} VerbArgumentKeys(doc: seq<Token>, v: string)
    ensures v in VerbArgumentMap(doc) <==> exists i :: 0 <= i < |doc| && IsVerb(doc[i]) && doc[i].text == v
  {
    if doc != [] {
      var front := doc[..|doc| - 1];
      VerbArgumentKeys(front, v);
      assert forall i :: 0 <= i < |front| ==> front[i] == doc[i];
    }
  }

  /** `doc[i]` is the last verb token whose surface text is `v`. */
  predicate LastVerbWithText(doc: seq<Token>, v: string, i: nat) {
    i < |doc| && IsVerb(doc[i]) && doc[i].text == v &&
    forall j :: i < j < |doc| ==> !(IsVerb(doc[j]) && doc[j].text == v)
  }

  /** Each key holds the buckets of the LAST verb token with that text: an
      earlier verb with the same text is overwritten. */
  lemma {:induction false} VerbArgumentLastWins(doc: seq<Token>, v: string)
    requires v in VerbArgumentMap(doc)
    ensures exists i: nat :: LastVerbWithText(doc, v, i) && VerbArgumentMap(doc)[v] == Classify(doc[i].children)
  {
    assert doc != [];
    var front, t := doc[..|doc| - 1], doc[|doc| - 1];
    if IsVerb(t) && t.text == v {
      assert VerbArgumentMap(doc)[v] == Classify(t.children);
      assert LastVerbWithText(doc, v, |doc| - 1);
    } else {
      assert v in VerbArgumentMap(front) && VerbArgumentMap(doc)[v] == VerbArgumentMap(front)[v];
      VerbArgumentLastWins(front, v);
      var i: nat :| LastVerbWithText(front, v, i) && VerbArgumentMap(front)[v] == Classify(front[i].children);
      assert doc == front + [t];
      LastVerbSnoc(front, t, v, i);
      assert LastVerbWithText(doc, v, i) && doc[i] == front[i];
    }
  }

  /** A token that is not a verb with text `v` keeps the last such verb last. */
  lemma LastVerbSnoc(front: seq<Token>, t: Token, v: string, i: nat)
    requires LastVerbWithText(front, v, i) && !(IsVerb(t) && t.text == v)
    ensures LastVerbWithText(front + [t], v, i) && (front + [t])[i] == front[i]
  {
    var doc := front + [t];
    forall j | i < j < |doc| ensures !(IsVerb(doc[j]) && doc[j].text == v) {
      if j < |front| { assert doc[j] == front[j]; }
    }
  }
}
