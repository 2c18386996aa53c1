/** The `NlpModel` object: it holds the annotated document and the word list
    derived from it, and answers the reporting queries over them. */
module MyNlpModel {
  import opened Annotation
  import opened WordFilter
  import opened DependencyTree
  import opened VerbArguments
  import opened ActionTarget
  import opened Frequency

  class NlpModel {
    /** The runtime's Unicode lower-casing of strings. */
    const lower: string -> string
    /** Whether a text has been set; before that the object has neither a
        document nor a word list, and every query fails. */
    var ready: bool
    /** The annotated document of the last text set. */
    var doc: seq<Token>
    /** The filtered word list of `doc`. */
    var words: seq<string>

    /** The word list always belongs to the current document. */
    ghost predicate Valid()
      reads this
    {
      ready ==> words == Words(doc, lower)
    }

    constructor (lower: string -> string)
      ensures this.lower == lower && !ready && Valid()
    {
      this.lower := lower;
      ready := false;
      doc := [];
      words := [];
    }

    /** Replace the document by the annotation of a new text and rebuild the
        word list from it; nothing of the previous text survives. */
    method SetText(annotated: seq<Token>)
      modifies this
      ensures Valid() && ready
      ensures doc == annotated && words == Words(annotated, lower)
    {
      doc := annotated;
      Tokenization();
      ready := true;
    }

    /** Rebuild the word list from the current document. */
    method Tokenization()
      modifies this`words
      ensures words == Words(doc, lower)
    {
      words := Words(doc, lower);
    }

    /** The lemmas `print_verbs` lists. */
    function Verbs(): seq<string>
      reads this
      requires ready
    {
      VerbLemmas(doc)
    }

    /** The (word, count) pairs `print_most_frequent_words` lists. They are
        counted over the stored word list, which is that of the current
        document. */
    function MostFrequentWords(numberOfTop: int := 5): (r: seq<(string, nat)>)
      reads this
      requires ready && Valid()
      ensures r == MostCommon(Words(doc, lower), numberOfTop)
    {
      MostCommon(words, numberOfTop)
    }

    /** The lines `print_dependency_parsing_tree` prints: for each ROOT token
        in document order, its header and then its subtree. */
    method DependencyParsingTree() returns (lines: seq<string>)
      requires ready
      ensures lines == TreeLines(doc)
    {
      lines := [];
      for i := 0 to |doc|
        invariant lines == TreeLines(doc[..i])
      {
        var token := doc[i];
        ghost var before := lines;
        if token.dep == "ROOT" {
          lines := lines + ["ROOT: " + token.text];
          lines := lines + ChildLines(token, "");
        }
        assert lines == before + RootLines(token);
        ghost var seen := doc[..i + 1];
        assert seen[..|seen| - 1] == doc[..i] && seen[|seen| - 1] == token;
      }
      assert doc[..|doc|] == doc;
    }

    /** The table `print_verb_arguments` builds (and then prints): for each verb
        token, its children's texts sorted into subject, objects and modifiers,
        stored under the verb's text. */
    method VerbArgumentTable() returns (table: map<string, Arguments>)
      requires ready
      ensures table == VerbArgumentMap(doc)
    {
      table := map[];
      for i := 0 to |doc|
        invariant table == VerbArgumentMap(doc[..i])
      {
        var token := doc[i];
        if token.pos == VERB {
          var arguments := NoArguments;
          for j := 0 to |token.children|
            invariant arguments == Classify(token.children[..j])
          {
            var child := token.children[j];
            if child.dep == "nsubj" {
              arguments := arguments.(subject := arguments.subject + [child.text]);
            } else if child.dep == "obj" {
              arguments := arguments.(objects := arguments.objects + [child.text]);
            } else if child.dep == "advmod" || child.dep == "obl" {
              arguments := arguments.(modifiers := arguments.modifiers + [(child.text, child.dep)]);
            }
            assert token.children[..j + 1][..j] == token.children[..j];
          }
          assert token.children[..|token.children|] == token.children;
          table := table[token.text := arguments];
        }
        assert doc[..i + 1][..i] == doc[..i];
      }
      assert doc[..|doc|] == doc;
    }

    /** `_find_action_target`: the first direct object of the earliest token
        that is the action word used as a verb and has a direct object; None
        when there is no such token. A matching verb without a direct object
        does not stop the search. */
    method FindActionTarget(actionWord: string) returns (target: Option<string>)
      requires ready
      ensures target.None? <==> forall i :: 0 <= i < |doc| ==> !Qualifies(doc[i], actionWord, lower)
      ensures target.Some? ==>
                exists i :: 0 <= i < |doc| && Qualifies(doc[i], actionWord, lower) &&
                            (forall j :: 0 <= j < i ==> !Qualifies(doc[j], actionWord, lower)) &&
                            target == FirstObject(doc[i].children)
    {
      for i := 0 to |doc|
        invariant forall j :: 0 <= j < i ==> !Qualifies(doc[j], actionWord, lower)
      {
        var token := doc[i];
        if lower(token.text) == lower(actionWord) && token.pos == VERB {
          for k := 0 to |token.children|
            invariant forall j :: 0 <= j < k ==> token.children[j].dep != "obj"
          {
            if token.children[k].dep == "obj" {
              target := Some(token.children[k].text);
              ghost var first := FirstObject(token.children);
              assert first.Some?;
              assert first == target;
              return;
            }
          }
        }
      }
      return None;
    }
  }
}
