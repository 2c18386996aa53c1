# NlpModel reporting operations, modelled in Dafny

This project models the `NlpModel` class of
`NLP/Examples/nlp_model/my_nlp_model.py`. The class wraps one document that
spaCy has already annotated and answers reporting queries over it:

- the filtered word list that `set_text` rebuilds;
- the verb lemmas;
- the indented dependency tree;
- the verb-argument table;
- the action-target lookup;
- the word frequencies with `Counter.most_common`.

The annotated document is the model's input. It is a sequence of `Token`
records (`annotation.dfy`). Each record has a surface text, a lemma, a
part-of-speech tag, a dependency label, the four flags `is_stop`, `is_punct`,
`is_space` and `is_alpha`, and its syntactic children left to right. Each
child carries its own subtree, so walking the tree terminates structurally.
Python's Unicode `str.lower` is a parameter `lower: string -> string`, which
the object keeps as a constant.

Files:

- `annotation.dfy`: the token record and subtree sizes.
- `word_filter.dfy`: the word list of `__tokenization` and the lemmas that
  `print_verbs` lists.
- `dependency_tree.dfy`: the lines of `print_dependency_parsing_tree` and
  `_print_children`. The lines are checked against a reference description,
  the *outline*. The outline lists every descendant in pre-order with the
  is-last flags of its path, and each line is derived from one outline
  entry.
- `verb_arguments.dfy`: the buckets and the table of `print_verb_arguments`.
- `action_target.dfy`: what `_find_action_target` looks for.
- `frequency.dfy`: `Counter(words)` and `most_common(n)`.
- `my_nlp_model.dfy`: the class itself. It has the fields `doc` and `words`,
  which `SetText` overwrites. The invariant `Valid()` says that the word
  list is that of the current document. The constructor and `SetText`
  establish it, and `MostFrequentWords` relies on it. The source's loops
  become methods with loops, and each method is proved equal to the
  functions above.

For `n >= 0`, `most_common(n)` is Python's
`sorted(items, key=count, reverse=True)[:n]`, computed by `heapq.nlargest`.
It gives nothing for `n <= 0`. The sort is stable, so equal counts keep the
counter's first-occurrence order. The model uses a stable insertion sort,
proves that it is a sorted permutation, and proves that it keeps the order
within each count.

A matching verb without a direct object does not end the action-target
lookup: the loop (lines 109-116) goes on to later tokens, and
`FindActionTarget` answers from the first matching verb that has one.

## Model

| member | source | states |
|---|---|---|
| WordFilter.Words | NLP/Examples/nlp_model/my_nlp_model.py:19-26 | the word list is never longer than the document |
| WordFilter.WordsAppend | NLP/Examples/nlp_model/my_nlp_model.py:19-26 | the list of two consecutive stretches of text is the concatenation of their lists: document order is kept and each token is judged on its own |
| WordFilter.WordsMember | NLP/Examples/nlp_model/my_nlp_model.py:19-26 | a string is in the list iff some token that is not a stop word, not punctuation, not whitespace and is alphabetic has it as its lower-cased lemma |
| WordFilter.WordsFull | NLP/Examples/nlp_model/my_nlp_model.py:19-26 | nothing is dropped iff every token passes the filter, and then entry i is the lower-cased lemma of token i |
| MyNlpModel.NlpModel.constructor | NLP/Examples/nlp_model/my_nlp_model.py:7-11 | a fresh object has no text yet and keeps the lower-casing it is given |
| MyNlpModel.NlpModel.SetText | NLP/Examples/nlp_model/my_nlp_model.py:13-15 | the document is replaced by the new annotation and the word list is rebuilt from it alone; the word list always belongs to the current document |
| MyNlpModel.NlpModel.Tokenization | NLP/Examples/nlp_model/my_nlp_model.py:17-26 | the word list becomes the filtered lower-cased lemmas of the current document, touching no other field |
| WordFilter.VerbLemmas | NLP/Examples/nlp_model/my_nlp_model.py:46 | the verb listing is never longer than the document |
| WordFilter.VerbLemmasAppend | NLP/Examples/nlp_model/my_nlp_model.py:46 | the listing of two consecutive stretches is the concatenation of their listings (document order) |
| WordFilter.VerbLemmasMember | NLP/Examples/nlp_model/my_nlp_model.py:46 | a lemma is listed iff some token tagged VERB carries it |
| DependencyTree.ChildLinesFrom | NLP/Examples/nlp_model/my_nlp_model.py:63-70 | every line printed for a subtree starts with the caller's prefix followed by a branch or indentation glyph |
| DependencyTree.ChildLinesAsOutline | NLP/Examples/nlp_model/my_nlp_model.py:63-70 | line k is the k-th descendant in pre-order: prefix, one indentation segment per ancestor ("    " below a last child, "│   " otherwise), then "└── " for a last child or "├── " for an earlier one, then "text [dep]" |
| DependencyTree.OutlineSize | NLP/Examples/nlp_model/my_nlp_model.py:63-70 | exactly one entry per descendant, so a childless node prints nothing |
| DependencyTree.OutlineBlocks | NLP/Examples/nlp_model/my_nlp_model.py:63-70 | right after each entry come exactly the entries of its own subtree, in pre-order, with paths that extend its path |
| DependencyTree.IndentWidth | NLP/Examples/nlp_model/my_nlp_model.py:69-70 | each level of nesting adds exactly four characters of indentation |
| DependencyTree.SubtreeIndentation | NLP/Examples/nlp_model/my_nlp_model.py:67-70 | a line at depth d carries 4·(d−1) characters of indentation after the prefix, and that indentation plus the entry's own segment begins every line of its subtree |
| DependencyTree.TreeHeaders | NLP/Examples/nlp_model/my_nlp_model.py:57-61 | the printout has one "ROOT: text" header per ROOT token, in document order, and no other header line |
| DependencyTree.TreeLines | NLP/Examples/nlp_model/my_nlp_model.py:57-61 | the printout is empty iff no token is labelled ROOT |
| DependencyTree.RootLinesCount | NLP/Examples/nlp_model/my_nlp_model.py:58-61 | a ROOT token prints one line per node of its subtree (its header plus one per descendant); any other token prints nothing |
| MyNlpModel.NlpModel.DependencyParsingTree | NLP/Examples/nlp_model/my_nlp_model.py:57-61 | the loop over the document collects exactly the lines of the reference printout |
| VerbArguments.ClassifyBuckets | NLP/Examples/nlp_model/my_nlp_model.py:77-89 | subject holds the texts of the "nsubj" children, objects those of the "obj" children, and modifiers the (text, label) pairs of the "advmod"/"obl" children, each in child order |
| VerbArguments.Classify | NLP/Examples/nlp_model/my_nlp_model.py:77-89 | each child lands in at most one bucket: the bucket sizes add up to the number of children with one of the four labels, and never exceed the number of children |
| VerbArguments.VerbArgumentMap | NLP/Examples/nlp_model/my_nlp_model.py:73-91 | each token adds at most one entry, so the table never has more entries than the document has tokens |
| VerbArguments.VerbArgumentKeys | NLP/Examples/nlp_model/my_nlp_model.py:73-91 | the table's keys are exactly the surface texts of the VERB tokens |
| VerbArguments.VerbArgumentLastWins | NLP/Examples/nlp_model/my_nlp_model.py:75-91 | each key holds the buckets of the last VERB token with that text |
| MyNlpModel.NlpModel.VerbArgumentTable | NLP/Examples/nlp_model/my_nlp_model.py:72-91 | the nested loops build exactly the reference table |
| ActionTarget.FirstObject | NLP/Examples/nlp_model/my_nlp_model.py:113-115 | None iff no child is labelled "obj"; otherwise the text of the first "obj" child |
| MyNlpModel.NlpModel.FindActionTarget | NLP/Examples/nlp_model/my_nlp_model.py:107-116 | None iff no token is the action word (case-insensitively) tagged VERB with an "obj" child; otherwise the first "obj" child of the earliest such token |
| Frequency.Count | NLP/Examples/nlp_model/my_nlp_model.py:40 | a word's count is its number of occurrences in the word list |
| Frequency.Distinct | NLP/Examples/nlp_model/my_nlp_model.py:120 | the counter's keys are exactly the words of the list, each once |
| Frequency.DistinctOrder | NLP/Examples/nlp_model/my_nlp_model.py:40 | the counter's keys come in the order of their first occurrences in the word list |
| Frequency.CounterItems | NLP/Examples/nlp_model/my_nlp_model.py:40 | every word of the list has its item with its number of occurrences, every item is such a pair, and no word has two items; the dictionary built at line 120 has the same items |
| Frequency.Pairs | NLP/Examples/nlp_model/my_nlp_model.py:40 | each counter item pairs its key with that key's count |
| Frequency.CounterTotal | NLP/Examples/nlp_model/my_nlp_model.py:40 | the counts add up to the length of the word list |
| Frequency.SortByCount | NLP/Examples/nlp_model/my_nlp_model.py:42 | the items sorted by descending count are a permutation of the counter's items |
| Frequency.SortStable | NLP/Examples/nlp_model/my_nlp_model.py:42 | the sort is stable: items with equal counts keep their order |
| Frequency.Take | NLP/Examples/nlp_model/my_nlp_model.py:42 | the first n items, none when n <= 0, all when there are fewer |
| Frequency.MostCommonLength | NLP/Examples/nlp_model/my_nlp_model.py:42 | most_common(n) has min(n, number of distinct words) items, none when n <= 0 |
| Frequency.MostCommon | NLP/Examples/nlp_model/my_nlp_model.py:42 | counts do not increase along most_common(n), and every item it lists is an item of the counter, listed no more often than the counter has it |
| MyNlpModel.NlpModel.MostFrequentWords | NLP/Examples/nlp_model/my_nlp_model.py:38-42 | the listed pairs are most_common(n) of the current document's word list |
| Frequency.MostCommonItems | NLP/Examples/nlp_model/my_nlp_model.py:42 | every item of most_common(n) is an item of the counter |
| Frequency.MostCommonCounts | NLP/Examples/nlp_model/my_nlp_model.py:42 | each listed pair is a word of the list with its number of occurrences |
| Frequency.MostCommonDistinct | NLP/Examples/nlp_model/my_nlp_model.py:42 | no word is listed twice |
| Frequency.MostCommonTop | NLP/Examples/nlp_model/my_nlp_model.py:42 | a word left out occurs no more often than any word listed |
| Frequency.MostCommonTies | NLP/Examples/nlp_model/my_nlp_model.py:42 | among equal counts, the words listed are the first ones met, in first-occurrence order |

## Left out

- Loading the spaCy pipeline (lines 7-11) and annotating the text (line 14) are foreign calls. `SetText` takes the finished annotation, and the constructor takes the lower-casing function instead of a model path.
- `str.lower` on Unicode text is the abstract parameter `lower`. Case folding is not modelled.
- Every query before `set_text` fails in Python with an AttributeError, because `doc` and `words` do not exist yet. The model records this as the `ready` flag and makes it a precondition of each query.
- `print_pos_tagg`, `print_all_entities`, `print_tokens_and_lemmas` and `print_dependency_parsing` (lines 28-36, 48-55) only print spaCy attributes and `spacy.explain` texts.
- Console output is not modelled. Each query returns what it would print as a value:
  - `print_verbs` gives `Verbs` (line 46);
  - `print_most_frequent_words` gives `MostFrequentWords` (lines 38-43);
  - the tree gives its lines;
  - `print_verb_arguments` gives the table without the report at lines 93-98;
  - `print_find_action_target` gives the lookup's result, not the message at lines 100-105.
- The debug print of every token inside the lookup loop (line 110) has no effect on the result.
- MyNlpModel.NlpModel.VerbArgumentTable: a Dafny map has no order. The order of the printed verbs is not modelled: first insertion of each text, kept when a later verb overwrites it.
- `MyNlpModel.NlpModel.Verbs` only delegates and carries no contract of its own. Its properties are proved about `VerbLemmas`.
- `visualization_word_сloud` and `visualization_matplotlib_bar_chart` (lines 118-172) render pictures and write files with floating-point layout. The dictionary built at line 120 is `CounterItems`.
- `NLP/Examples/nlp_model_training/training.py`, `NLP/Examples/test.py` and `NLP/Examples/training_model.py` are not part of this model. They train, persist and query a statistical model through spaCy.
