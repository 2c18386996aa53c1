/** What `_find_action_target` looks for: a verb whose lower-cased text is the
    lower-cased action word, and that verb's first direct object. */
module ActionTarget {
  import opened Annotation

  /** The token is the action word (compared after lower-casing both) used as a verb. */
  predicate MatchesAction(t: Token, word: string, lower: string -> string) {
    lower(t.text) == lower(word) && IsVerb(t)
  }

  /** The text of the first child labelled "obj", or None when no child is. */
  function FirstObject(children: seq<Token>): (r: Option<string>)
    ensures r.None? <==> forall k :: 0 <= k < |children| ==> children[k].dep != "obj"
    ensures r.Some? ==> exists k :: 0 <= k < |children| && children[k].dep == "obj" &&
                                    (forall j :: 0 <= j < k ==> children[j].dep != "obj") &&
                                    r.value == children[k].text
  {
    if children == [] then None
    else if children[0].dep == "obj" then Some(children[0].text)
    else
      var r := FirstObject(children[1..]);
      assert forall k :: 1 <= k < |children| ==> children[k] == children[1..][k - 1];
      if r.Some? then
        var k :| 0 <= k < |children[1..]| && children[1..][k].dep == "obj" &&
                 (forall j :: 0 <= j < k ==> children[1..][j].dep != "obj") &&
                 r.value == children[1..][k].text;
        assert children[k + 1].dep == "obj" && r.value == children[k + 1].text;
        assert forall j :: 0 <= j < k + 1 ==> children[j].dep != "obj" by {
          forall j | 0 <= j < k + 1 ensures children[j].dep != "obj" {
            if j > 0 { assert children[j] == children[1..][j - 1]; }
          }
        }
        r
      else
        r
  }

  /** A token the lookup stops at: the action word as a verb, with a direct object. */
  predicate Qualifies(t: Token, word: string, lower: string -> string) {
    MatchesAction(t, word, lower) && FirstObject(t.children).Some?
  }
}
