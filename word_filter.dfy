/** The filtered word list built by `NlpModel.__tokenization`, and the verb
    listing of `print_verbs`: two order-preserving projections of a document. */
module WordFilter {
  import opened Annotation

  /** A token enters the word list when it is not a stop word, not punctuation,
      not whitespace, and alphabetic. */
  predicate IsWord(t: Token) {
    !t.isStop && !t.isPunct && !t.isSpace && t.isAlpha
  }

  /** The lower-cased lemmas of the word tokens of `doc`, in document order. */
  function Words(doc: seq<Token>, lower: string -> string): (r: seq<string>)
    ensures |r| <= |doc|
  {
    if doc == [] then []
    else (if IsWord(doc[0]) then [lower(doc[0].lemma_)] else []) + Words(doc[1..], lower)
  }

  /** The word list of two consecutive stretches of text is the concatenation
      of their word lists: the filter keeps document order and looks at each
      token on its own. */
  lemma {:induction false} WordsAppend(a: seq<Token>, b: seq<Token>, lower: string -> string)
    ensures Words(a + b, lower) == Words(a, lower) + Words(b, lower)
  {
    if a == [] {
      assert a + b == b;
    } else {
      var head := if IsWord(a[0]) then [lower(a[0].lemma_)] else [];
      assert (a + b)[0] == a[0];
      assert (a + b)[1..] == a[1..] + b;
      assert Words(a + b, lower) == head + Words(a[1..] + b, lower);
      WordsAppend(a[1..], b, lower);
      assert Words(a, lower) == head + Words(a[1..], lower);
      assert head + (Words(a[1..], lower) + Words(b, lower)) == (head + Words(a[1..], lower)) + Words(b, lower);
    }
  }

  /** A string is in the word list exactly when some word token has it as its
      lower-cased lemma. */
  lemma {:induction false} WordsMember(doc: seq<Token>, lower: string -> string, w: string)
    ensures w in Words(doc, lower) <==>
            exists i :: 0 <= i < |doc| && IsWord(doc[i]) && lower(doc[i].lemma_) == w
  {
    if doc != [] {
      WordsMember(doc[1..], lower, w);
      if w in Words(doc[1..], lower) {
        var i :| 0 <= i < |doc[1..]| && IsWord(doc[1..][i]) && lower(doc[1..][i].lemma_) == w;
        assert doc[i + 1] == doc[1..][i];
      }
      if exists i :: 0 <= i < |doc| && IsWord(doc[i]) && lower(doc[i].lemma_) == w {
        var i :| 0 <= i < |doc| && IsWord(doc[i]) && lower(doc[i].lemma_) == w;
        if i > 0 {
          assert doc[1..][i - 1] == doc[i];
        }
      }
    }
  }

  /** Nothing is dropped exactly when every token is a word token, and then the
      list is the lower-cased lemmas position by position. */
  lemma {:induction false} WordsFull(doc: seq<Token>, lower: string -> string)
    ensures |Words(doc, lower)| == |doc| <==> forall i :: 0 <= i < |doc| ==> IsWord(doc[i])
    ensures |Words(doc, lower)| == |doc| ==>
            forall i :: 0 <= i < |doc| ==> Words(doc, lower)[i] == lower(doc[i].lemma_)
  {
    if doc != [] {
      WordsFull(doc[1..], lower);
      if forall i :: 0 <= i < |doc| ==> IsWord(doc[i]) {
        assert forall i :: 0 <= i < |doc[1..]| ==> IsWord(doc[1..][i]) by {
          forall i | 0 <= i < |doc[1..]| ensures IsWord(doc[1..][i]) {
            assert doc[1..][i] == doc[i + 1];
          }
        }
      }
      if |Words(doc, lower)| == |doc| {
        assert IsWord(doc[0]);
        forall i | 0 <= i < |doc| ensures IsWord(doc[i]) && Words(doc, lower)[i] == lower(doc[i].lemma_) {
          if i > 0 {
            assert doc[1..][i - 1] == doc[i];
          }
        }
      }
    }
  }

  /** The lemmas of the verb tokens of `doc`, in document order (not lower-cased). */
  function VerbLemmas(doc: seq<Token>): (r: seq<string>)
    ensures |r| <= |doc|
  {
    if doc == [] then []
    else (if IsVerb(doc[0]) then [doc[0].lemma_] else []) + VerbLemmas(doc[1..])
  }

  lemma {:induction false} VerbLemmasAppend(a: seq<Token>, b: seq<Token>)
    ensures VerbLemmas(a + b) == VerbLemmas(a) + VerbLemmas(b)
  {
    if a == [] {
      assert a + b == b;
    } else {
      var head := if IsVerb(a[0]) then [a[0].lemma_] else [];
      assert (a + b)[0] == a[0];
      assert (a + b)[1..] == a[1..] + b;
      assert VerbLemmas(a + b) == head + VerbLemmas(a[1..] + b);
      VerbLemmasAppend(a[1..], b);
      assert VerbLemmas(a) == head + VerbLemmas(a[1..]);
      assert head + (VerbLemmas(a[1..]) + VerbLemmas(b)) == (head + VerbLemmas(a[1..])) + VerbLemmas(b);
    }
  }

  /** A lemma is listed exactly when some verb token carries it. */
  lemma {:induction false} VerbLemmasMember(doc: seq<Token>, l: string)
    ensures l in VerbLemmas(doc) <==> exists i :: 0 <= i < |doc| && IsVerb(doc[i]) && doc[i].lemma_ == l
  {
    if doc != [] {
      VerbLemmasMember(doc[1..], l);
      if l in VerbLemmas(doc[1..]) {
        var i :| 0 <= i < |doc[1..]| && IsVerb(doc[1..][i]) && doc[1..][i].lemma_ == l;
        assert doc[i + 1] == doc[1..][i];
      }
      if exists i :: 0 <= i < |doc| && IsVerb(doc[i]) && doc[i].lemma_ == l {
        var i :| 0 <= i < |doc| && IsVerb(doc[i]) && doc[i].lemma_ == l;
        if i > 0 {
          assert doc[1..][i - 1] == doc[i];
        }
      }
    }
  }
}
