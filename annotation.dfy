/** The annotated document that the language pipeline hands to the model.
    Annotation itself (tokenizing, tagging, parsing) happens outside; here a
    document is just the finished token records. */
module Annotation {

  datatype Option<T> = None | Some(value: T)

  /** One token with the attributes the reporting operations read.
      `children` are the token's syntactic dependents, left to right, each
      carrying its own subtree, so a token is the root of its subtree. */
  datatype Token = Token(
    text: string,
    lemma_: string,
    pos: string,
    dep: string,
    isStop: bool,
    isPunct: bool,
    isSpace: bool,
    isAlpha: bool,
    children: seq<Token>)

  /** Part-of-speech tag of verbs. */
  const VERB := "VERB"

  predicate IsVerb(t: Token) { t.pos == VERB }

  /** Number of nodes in the subtree rooted at `t` (the token and all its descendants). */
  function Size(t: Token): (n: nat)
    ensures n >= 1
    decreases t, |t.children| + 1
  {
    1 + SizeOfChildren(t, 0)
  }

  /** Total size of the subtrees of children `i..` of `t`. */
  function SizeOfChildren(t: Token, i: nat): nat
    requires i <= |t.children|
    decreases t, |t.children| - i
  {
    if i == |t.children| then 0
    else Size(t.children[i]) + SizeOfChildren(t, i + 1)
  }
}
