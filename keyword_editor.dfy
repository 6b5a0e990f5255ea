/**
 The keyword-editing dialog of one law entry: the list being edited
 (`currentKeywords`) and the text of the input box (`newKeyword`), with the
 add and remove rules the dialog applies to them.
 */
module KeywordEditor {
  import opened Text

  /** The dialog never lets a list grow past this many keywords. */
  const MaxKeywords: nat := 7

  /** No keyword occurs twice (case-sensitive, as entered). */
  predicate NoDuplicates(keywords: seq<string>) {
    forall i, j :: 0 <= i < j < |keywords| ==> keywords[i] != keywords[j]
  }

  /** The invariant of one entry's keyword list: bounded and duplicate-free. */
  predicate ValidKeywords(keywords: seq<string>) {
    |keywords| <= MaxKeywords && NoDuplicates(keywords)
  }

  /** The dialog's state: the list being edited and the pending input text. */
  datatype Editor = Editor(keywords: seq<string>, input: string)

  /** The dialog opens on an entry's current keywords and an empty input box. */
  function Open(keywords: seq<string>): (e: Editor)
    ensures e.keywords == keywords && e.input == ""
  {
    Editor(keywords, "")
  }

  /** Typing into the input box replaces the pending text and nothing else. */
  function SetInput(e: Editor, text: string): (r: Editor)
    ensures r.keywords == e.keywords && r.input == text
  {
    e.(input := text)
  }

  /** The three conditions under which the trimmed input is accepted. */
  predicate Accepts(keywords: seq<string>, candidate: string) {
    Trim(candidate) != [] && |keywords| < MaxKeywords && Trim(candidate) !in keywords
  }

  /**
   Adding a keyword: the trimmed input is appended, and the input box cleared,
   exactly when it is non-blank, the list is below the cap and the keyword is
   not already present; otherwise nothing changes. The earlier keywords are
   never touched, the cap is never crossed by an add, and a duplicate-free
   list stays duplicate-free.
   */
  function AddKeyword(e: Editor): (r: Editor)
    ensures r.keywords == e.keywords || r.keywords == e.keywords + [Trim(e.input)]
    ensures r.keywords != e.keywords <==> Accepts(e.keywords, e.input)
    ensures r.keywords != e.keywords ==> r.input == ""
    ensures r.keywords == e.keywords ==> r == e
    ensures |r.keywords| > |e.keywords| ==> |r.keywords| <= MaxKeywords
    ensures NoDuplicates(e.keywords) ==> NoDuplicates(r.keywords)
  {
    var t := Trim(e.input);
    if t != [] && |e.keywords| < MaxKeywords && t !in e.keywords then
      Editor(e.keywords + [t], "")
    else
      e
  }

  /**
   `keywords` without the element at `index`, the rest in their original
   order; an index outside the list removes nothing. This is the
   `filter((_, i) => i !== index)` of the dialog, written as a recursive filter.
   */
  function RemoveAt(keywords: seq<string>, index: int): (r: seq<string>)
    ensures 0 <= index < |keywords| ==>
              |r| == |keywords| - 1
              && (forall k :: 0 <= k < index ==> r[k] == keywords[k])
              && (forall k :: index <= k < |r| ==> r[k] == keywords[k + 1])
    ensures !(0 <= index < |keywords|) ==> r == keywords
    decreases |keywords|
  {
    if keywords == [] then []
    else (if index == 0 then [] else [keywords[0]]) + RemoveAt(keywords[1..], index - 1)
  }

  /** Removing a keyword edits the list only; the input box is left as it is. */
  function RemoveKeyword(e: Editor, index: int): (r: Editor)
    ensures r.input == e.input
    ensures r.keywords == RemoveAt(e.keywords, index)
  {
    e.(keywords := RemoveAt(e.keywords, index))
  }

  /** Removing an element keeps a list bounded and duplicate-free. */
  lemma {:induction false} RemoveAtPreservesValid(keywords: seq<string>, index: int)
    ensures ValidKeywords(keywords) ==> ValidKeywords(RemoveAt(keywords, index))
    ensures ValidKeywords(keywords) && 0 <= index < |keywords| ==> keywords[index] !in RemoveAt(keywords, index)
  {
    var r := RemoveAt(keywords, index);
    if ValidKeywords(keywords) && 0 <= index < |keywords| {
      forall i, j | 0 <= i < j < |r| ensures r[i] != r[j] {
        var i' := if i < index then i else i + 1;
        var j' := if j < index then j else j + 1;
        assert r[i] == keywords[i'] && r[j] == keywords[j'] && i' < j';
      }
    }
  }

  /** Pressing "add" twice with the same input has the effect of pressing it once. */
  lemma AddKeywordIdempotent(e: Editor)
    ensures AddKeyword(AddKeyword(e)) == AddKeyword(e)
  {
    var r := AddKeyword(e);
    if r.keywords != e.keywords {
      assert r.input == "" && Trim(r.input) == [];
    }
  }

  /** One user action inside the dialog. */
  datatype Action = Type(text: string) | Add | Remove(index: int)

  /**
   The dialog's response to one action: only an add or a remove can change
   the list, neither grows it past the cap, and a valid list stays valid.
   */
  function Step(e: Editor, a: Action): (r: Editor)
    ensures r.keywords == e.keywords
            || (a.Add? && r.keywords == e.keywords + [Trim(e.input)])
            || (a.Remove? && r.keywords == RemoveAt(e.keywords, a.index))
    ensures |r.keywords| <= |e.keywords| || |r.keywords| <= MaxKeywords
    ensures ValidKeywords(e.keywords) ==> ValidKeywords(r.keywords)
  {
    match a
    case Type(text) => SetInput(e, text)
    case Add => AddKeyword(e)
    case Remove(index) => RemoveAtPreservesValid(e.keywords, index); RemoveKeyword(e, index)
  }

  /**
   The editor after a whole sequence of actions, applied in order. The list
   never ends up longer than both its start and the cap, and typing alone
   never changes it.
   */
  function Run(e: Editor, actions: seq<Action>): (r: Editor)
    ensures |r.keywords| <= |e.keywords| || |r.keywords| <= MaxKeywords
    ensures (forall i :: 0 <= i < |actions| ==> actions[i].Type?) ==> r.keywords == e.keywords
    decreases |actions|
  {
    if actions == [] then e else Run(Step(e, actions[0]), actions[1..])
  }

  /**
   Whatever the user types, adds and removes, a dialog opened on a valid
   keyword list hands back a valid list on save: at most seven keywords and
   no duplicates.
   */
  lemma {:induction false} RunPreservesValid(e: Editor, actions: seq<Action>)
    requires ValidKeywords(e.keywords)
    ensures ValidKeywords(Run(e, actions).keywords)
    decreases |actions|
  {
    if actions != [] {
      RunPreservesValid(Step(e, actions[0]), actions[1..]);
    }
  }
}
