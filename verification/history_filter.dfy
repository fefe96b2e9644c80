/** The evaluation-history page's list: the evaluations whose comments or
    formatted date contain the search text, ignoring case, and whose type
    passes the type selector. */
module HistoryFilter {
  import opened Text
  import opened Schema

  /** The type selector: "all", "self" or "evaluator". */
  datatype TypeFilter = All | SelfOnly | EvaluatorOnly

  function FilterValue(f: TypeFilter): string
  {
    match f
    case All => "all"
    case SelfOnly => "self"
    case EvaluatorOnly => "evaluator"
  }

  /** The lower-cased comments contain the lower-cased search, or (when the
      comments are null or do not match) so does the lower-cased formatted
      date. `formatDate` stands for the "dd MMM yyyy" formatting. */
  predicate MatchesSearch(e: Evaluation, search: string, formatDate: int -> string)
  {
    || (e.comments.Some? && Contains(Lower(e.comments.value), Lower(search)))
    || Contains(Lower(formatDate(e.date)), Lower(search))
  }

  predicate MatchesType(e: Evaluation, f: TypeFilter)
  {
    FilterValue(f) == "all" || e.kind == FilterValue(f)
  }

  predicate Keeps(e: Evaluation, search: string, f: TypeFilter, formatDate: int -> string)
  {
    MatchesSearch(e, search, formatDate) && MatchesType(e, f)
  }

  /** `filteredData`. */
  function Filtered(evals: seq<Evaluation>, search: string, f: TypeFilter, formatDate: int -> string): (r: seq<Evaluation>)
    ensures |r| <= |evals|
    ensures forall e :: e in r <==> e in evals && Keeps(e, search, f, formatDate)
  {
    if evals == [] then []
    else (if Keeps(evals[0], search, f, formatDate) then [evals[0]] else []) + Filtered(evals[1..], search, f, formatDate)
  }

  /** "all" lets every type through; "self" and "evaluator" let exactly
      their own type through. */
  lemma TypeFilterMeaning(e: Evaluation)
    ensures MatchesType(e, All)
    ensures MatchesType(e, SelfOnly) <==> e.kind == "self"
    ensures MatchesType(e, EvaluatorOnly) <==> e.kind == "evaluator"
  {
  }

  /** `r` is `s` with some elements dropped and the rest in order. */
  predicate IsSubsequence<T(==)>(r: seq<T>, s: seq<T>)
    decreases |s|
  {
    if r == [] then true
    else if s == [] then false
    else if r[0] == s[0] then IsSubsequence(r[1..], s[1..])
    else IsSubsequence(r, s[1..])
  }

  lemma {:induction false} FilteredIsSubsequence(evals: seq<Evaluation>, search: string, f: TypeFilter, formatDate: int -> string)
    ensures IsSubsequence(Filtered(evals, search, f, formatDate), evals)
  {
    if evals != [] {
      var rest := Filtered(evals[1..], search, f, formatDate);
      FilteredIsSubsequence(evals[1..], search, f, formatDate);
      if Keeps(evals[0], search, f, formatDate) {
        assert Filtered(evals, search, f, formatDate) == [evals[0]] + rest;
        assert ([evals[0]] + rest)[1..] == rest;
      } else {
        assert Filtered(evals, search, f, formatDate) == rest;
        SubsequenceOfTail(rest, evals);
      }
    }
  }

  /** A subsequence of the tail is a subsequence of the whole. */
  lemma {:induction false} SubsequenceOfTail<T>(r: seq<T>, s: seq<T>)
    requires s != [] && IsSubsequence(r, s[1..])
    ensures IsSubsequence(r, s)
    decreases |s|, 0
  {
    if r != [] && r[0] == s[0] {
      SubsequenceDropHead(r, s[1..]);
    }
  }

  /** A sequence that contains r as a subsequence contains r's tail. */
  lemma {:induction false} SubsequenceDropHead<T>(r: seq<T>, s: seq<T>)
    requires r != [] && IsSubsequence(r, s)
    ensures IsSubsequence(r[1..], s)
    decreases |s|, 1
  {
    if r[0] == s[0] {
      if r[1..] != [] {
        SubsequenceOfTail(r[1..], s);
      }
    } else {
      SubsequenceDropHead(r, s[1..]);
      SubsequenceOfTail(r[1..], s);
    }
  }

  /** Filtering the filtered list again removes nothing. */
  lemma {:induction false} FilteredIdempotent(evals: seq<Evaluation>, search: string, f: TypeFilter, formatDate: int -> string)
    ensures Filtered(Filtered(evals, search, f, formatDate), search, f, formatDate) == Filtered(evals, search, f, formatDate)
  {
    if evals != [] {
      var rest := Filtered(evals[1..], search, f, formatDate);
      var r := Filtered(evals, search, f, formatDate);
      FilteredIdempotent(evals[1..], search, f, formatDate);
      if Keeps(evals[0], search, f, formatDate) {
        assert r == [evals[0]] + rest;
        assert r[0] == evals[0] && r[1..] == rest;
        assert Filtered(r, search, f, formatDate) == [evals[0]] + Filtered(rest, search, f, formatDate);
      } else {
        assert r == rest;
      }
    }
  }

  /** An empty search matches every evaluation, so only the type selector
      removes anything. */
  lemma EmptySearchKeepsType(evals: seq<Evaluation>, f: TypeFilter, formatDate: int -> string)
    ensures forall e :: e in Filtered(evals, "", f, formatDate) <==> e in evals && MatchesType(e, f)
  {
    forall e ensures MatchesSearch(e, "", formatDate) {
      ContainsEmpty(Lower(formatDate(e.date)));
    }
  }

  /** With an empty search and "all", the list is shown unchanged. */
  lemma {:induction false} EmptySearchAllKeepsEverything(evals: seq<Evaluation>, formatDate: int -> string)
    ensures Filtered(evals, "", All, formatDate) == evals
  {
    if evals != [] {
      ContainsEmpty(Lower(formatDate(evals[0].date)));
      EmptySearchAllKeepsEverything(evals[1..], formatDate);
    }
  }

  /** The search ignores the case of the query: a query and its lower-cased
      form keep the same evaluations. */
  lemma SearchIgnoresCase(evals: seq<Evaluation>, search: string, f: TypeFilter, formatDate: int -> string)
    ensures Filtered(evals, Lower(search), f, formatDate) == Filtered(evals, search, f, formatDate)
  {
    LowerIdempotent(search);
  }
}
