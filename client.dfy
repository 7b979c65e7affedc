/**
 * The browser script pdfstorage/static/script.js: the list of selected file
 * names kept by the checkbox handler, the selected-count label and the
 * analyze button that follow it, the search filter over the fetched papers,
 * and the options populateSelect puts in a drop-down. The DOM is reduced to
 * the few fields these handlers write.
 */
module Client {
  import opened Strings
  import opened Seqs
  import opened Api
  import opened Wrappers
  import Analysis

  /** selectedFiles after a box is checked: the name is appended unless already listed. */
  function Checked(selected: seq<string>, filename: string): seq<string> {
    if filename in selected then selected else selected + [filename]
  }

  /** selectedFiles after a box is unchecked: every entry equal to the name is dropped. */
  function Unchecked(selected: seq<string>, filename: string): seq<string> {
    Filter(selected, (f: string) => f != filename)
  }

  /**
   * Checking keeps the list duplicate-free, lists the name exactly once,
   * keeps the existing entries and their order as a prefix, and grows the
   * list by one exactly when the name was new.
   */
  lemma CheckedSpec(selected: seq<string>, filename: string)
    requires NoDup(selected)
    ensures NoDup(Checked(selected, filename))
    ensures multiset(Checked(selected, filename))[filename] == 1
    ensures Checked(selected, filename)[..|selected|] == selected
    ensures |Checked(selected, filename)| == if filename in selected then |selected| else |selected| + 1
    ensures filename !in selected ==> Checked(selected, filename)[|selected|] == filename
  {
    var r := Checked(selected, filename);
    assert r[..|selected|] == selected;
    NoDupOccursOnce(r, filename);
  }

  /**
   * Unchecking removes every occurrence of the name, leaves every other
   * entry's count unchanged, and keeps the remaining entries in their
   * relative order; a duplicate-free list stays duplicate-free.
   */
  lemma UncheckedSpec(selected: seq<string>, filename: string)
    ensures filename !in Unchecked(selected, filename)
    ensures multiset(Unchecked(selected, filename)) == multiset(selected)[filename := 0]
    ensures IsSubsequence(Unchecked(selected, filename), selected)
    ensures NoDup(selected) ==> NoDup(Unchecked(selected, filename))
  {
    var keep := (f: string) => f != filename;
    forall x ensures multiset(Unchecked(selected, filename))[x] == multiset(selected)[filename := 0][x] {
      FilterCount(selected, keep, x);
    }
    FilterIsSubsequence(selected, keep);
    if NoDup(selected) {
      FilterNoDup(selected, keep);
    }
  }

  /** The button's rule: analysis is offered once two or more files are selected. */
  predicate AnalyzeEnabled(selected: seq<string>) {
    |selected| >= 2
  }

  /**
   * The button is enabled exactly when the server would accept the selection
   * as the request's file list; with the non-empty instruction the script
   * insists on, the server passes the request on to reading the files.
   */
  lemma ButtonMatchesServerRule(selected: seq<string>, instruction: string)
    requires instruction != ""
    ensures AnalyzeEnabled(selected) <==> Analysis.EnoughFiles(Analysis.Names(selected))
    ensures AnalyzeEnabled(selected) <==>
      Analysis.AnalyzeRejection(Analysis.AnalyzeRequest(Analysis.Names(selected), Some(instruction))).None?
  {
  }

  /** One option of a drop-down. */
  datatype SelectOption = SelectOption(value: string, text: string)

  const Placeholder := SelectOption("", "Select an option")

  /** A drop-down element, reduced to its list of options. */
  class SelectElement {
    var options: seq<SelectOption>

    constructor ()
      ensures options == []
    {
      options := [];
    }
  }

  /**
   * populateSelect: the drop-down is reset to the placeholder and then gets
   * one option per given value, in order, whose value and text are both that
   * value.
   */
  method PopulateSelect(select: SelectElement, values: seq<string>)
    modifies select
    ensures |select.options| == |values| + 1
    ensures select.options[0] == Placeholder
    ensures forall k :: 0 <= k < |values| ==> select.options[k + 1] == SelectOption(values[k], values[k])
  {
    select.options := [Placeholder];
    var i := 0;
    while i < |values|
      invariant 0 <= i <= |values|
      invariant |select.options| == i + 1
      invariant select.options[0] == Placeholder
      invariant forall k :: 0 <= k < i ==> select.options[k + 1] == SelectOption(values[k], values[k])
    {
      select.options := select.options + [SelectOption(values[i], values[i])];
      i := i + 1;
    }
  }

  /** A paper matches a lower-cased term when its subject, branch or regulation, lower-cased, contains it. */
  predicate MatchesSearch(p: Paper, term: string) {
    Contains(Lower(p.subject), term) || Contains(Lower(p.branch), term) || Contains(Lower(p.regulation), term)
  }

  /** The papers the search box shows for what the user typed. */
  function SearchResults(allPapers: seq<Paper>, typed: string): seq<Paper> {
    var term := Lower(typed);
    Filter(allPapers, (p: Paper) => MatchesSearch(p, term))
  }

  /**
   * The search shows exactly the papers that match, in their original order;
   * an empty box shows every paper; the case of what is typed does not matter.
   */
  lemma SearchSpec(allPapers: seq<Paper>, typed: string)
    ensures forall p :: p in SearchResults(allPapers, typed) <==> p in allPapers && MatchesSearch(p, Lower(typed))
    ensures IsSubsequence(SearchResults(allPapers, typed), allPapers)
    ensures typed == "" ==> SearchResults(allPapers, typed) == allPapers
    ensures SearchResults(allPapers, Lower(typed)) == SearchResults(allPapers, typed)
    ensures forall p :: multiset(SearchResults(allPapers, typed))[p] == if MatchesSearch(p, Lower(typed)) then multiset(allPapers)[p] else 0
  {
    var term := Lower(typed);
    FilterIsSubsequence(allPapers, (p: Paper) => MatchesSearch(p, term));
    forall p ensures multiset(SearchResults(allPapers, typed))[p] == if MatchesSearch(p, term) then multiset(allPapers)[p] else 0 {
      FilterCount(allPapers, (q: Paper) => MatchesSearch(q, term), p);
    }
    if typed == "" {
      forall p | p in allPapers ensures MatchesSearch(p, term) {
        ContainsEmpty(Lower(p.subject));
      }
      FilterAll(allPapers, (p: Paper) => MatchesSearch(p, term));
    }
    LowerIdempotent(typed);
  }

  /** The page's script state and the two display fields its selection handler writes. */
  class PageState {
    var allPapers: seq<Paper>
    var selectedFiles: seq<string>
    /** The text of the selected-count label. */
    var selectedCount: int
    /** Whether the analyze button is disabled. */
    var analyzeDisabled: bool

    /** The selection never lists a file twice. */
    ghost predicate Valid()
      reads this
    {
      NoDup(selectedFiles)
    }

    /** The label shows the selection's size and the button follows the two-file rule. */
    ghost predicate Synced()
      reads this
    {
      selectedCount == |selectedFiles| && analyzeDisabled == !AnalyzeEnabled(selectedFiles)
    }

    /**
     * The state at page load: nothing fetched, nothing selected. The label's
     * and the button's first values come from the page's markup.
     */
    constructor (initialCount: int, initiallyDisabled: bool)
      ensures Valid()
      ensures allPapers == [] && selectedFiles == []
      ensures selectedCount == initialCount && analyzeDisabled == initiallyDisabled
    {
      allPapers := [];
      selectedFiles := [];
      selectedCount := initialCount;
      analyzeDisabled := initiallyDisabled;
    }

    /** fetchPapers on success: the fetched rows replace allPapers. */
    method PapersFetched(papers: seq<Paper>)
      modifies this`allPapers
      ensures allPapers == papers
    {
      allPapers := papers;
    }

    /** updateAnalyzeButtonState. */
    method UpdateAnalyzeButtonState()
      modifies this`selectedCount, this`analyzeDisabled
      ensures Synced()
    {
      var count := |selectedFiles|;
      selectedCount := count;
      if count >= 2 {
        analyzeDisabled := false;
      } else {
        analyzeDisabled := true;
      }
    }

    /** handleFileSelection: a checkbox for `filename` changed to `checked`. */
    method HandleFileSelection(filename: string, checked: bool)
      requires Valid()
      modifies this`selectedFiles, this`selectedCount, this`analyzeDisabled
      ensures Valid() && Synced()
      ensures selectedFiles ==
        if checked then Checked(old(selectedFiles), filename) else Unchecked(old(selectedFiles), filename)
      ensures checked ==> multiset(selectedFiles)[filename] == 1
      ensures !checked ==> filename !in selectedFiles
    {
      if checked {
        if filename !in selectedFiles {
          selectedFiles := selectedFiles + [filename];
        }
        CheckedSpec(old(selectedFiles), filename);
      } else {
        UncheckedSpec(selectedFiles, filename);
        selectedFiles := Filter(selectedFiles, (f: string) => f != filename);
      }
      UpdateAnalyzeButtonState();
    }

    /**
     * The search box's input handler: the papers to display are exactly the
     * matching ones, in their order in allPapers, and all of them for an
     * empty box; allPapers is only read.
     */
    method OnSearchInput(typed: string) returns (shown: seq<Paper>)
      ensures forall p :: p in shown <==> p in allPapers && MatchesSearch(p, Lower(typed))
      ensures IsSubsequence(shown, allPapers)
      ensures typed == "" ==> shown == allPapers
      ensures shown == SearchResults(allPapers, Lower(typed))
    {
      var term := Lower(typed);
      shown := Filter(allPapers, (p: Paper) => MatchesSearch(p, term));
      SearchSpec(allPapers, typed);
    }
  }
}
