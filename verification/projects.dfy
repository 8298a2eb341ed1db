/** The search of dashboard/src/pages/Projects.tsx: the projects whose name
    or description contains the search term, ignoring case, and the heading
    shown when none is listed. */
module Projects {
  import opened Wrappers
  import opened Domain
  import Seqs
  import Text

  /** Whether a project matches the term: its lower-cased name or
      description contains the lower-cased term. */
  predicate Matches(term: string, p: Project) {
    || Text.Contains(Text.ToLower(p.name), Text.ToLower(term))
    || Text.Contains(Text.ToLower(p.description), Text.ToLower(term))
  }

  /** `filteredProjects`: the matching projects in list order, out of the
      loaded ones (none before they load). */
  function FilterProjects(loaded: Option<seq<Project>>, term: string): (r: seq<Project>)
    ensures Seqs.IsSubsequence(r, loaded.GetOr([]))
    ensures forall p :: p in r <==> p in loaded.GetOr([]) && Matches(term, p)
  {
    var ps := loaded.GetOr([]);
    Seqs.FilterIsSubsequence(ps, (p: Project) => Matches(term, p));
    Seqs.Filter(ps, (p: Project) => Matches(term, p))
  }

  /** An empty search keeps every project, in order. */
  lemma EmptyTermKeepsAll(ps: seq<Project>)
    ensures FilterProjects(Some(ps), "") == ps
  {
    forall p | p in ps ensures Matches("", p) {
      Text.ContainsEmpty(Text.ToLower(p.name));
    }
    Seqs.FilterAll(ps, (p: Project) => Matches("", p));
  }

  /** The search ignores the case of the term: a term and its lower-case
      form select the same projects. */
  lemma CaseInsensitiveTerm(loaded: Option<seq<Project>>, term: string)
    ensures FilterProjects(loaded, term) == FilterProjects(loaded, Text.ToLower(term))
  {
    Text.ToLowerIdempotent(term);
    Seqs.FilterCongruent(loaded.GetOr([]), (p: Project) => Matches(term, p),
                         (p: Project) => Matches(Text.ToLower(term), p));
  }

  /** The empty-state heading, shown when no project is listed: it tells a
      search without results from an empty project list. */
  datatype Heading = NoProjectsFound | NoProjectsYet

  function EmptyStateHeading(loaded: Option<seq<Project>>, term: string): (h: Option<Heading>)
    ensures h.Some? <==> |FilterProjects(loaded, term)| == 0
    ensures h == Some(NoProjectsFound) ==> term != ""
    ensures h == Some(NoProjectsYet) ==> term == ""
  {
    if |FilterProjects(loaded, term)| == 0 then
      Some(if term != "" then NoProjectsFound else NoProjectsYet)
    else None
  }

  /** "No projects yet" appears exactly when there is no project at all and
      no search term. */
  lemma NoProjectsYetIff(loaded: Option<seq<Project>>, term: string)
    ensures EmptyStateHeading(loaded, term) == Some(NoProjectsYet) <==> |loaded.GetOr([])| == 0 && term == ""
  {
    if term == "" {
      EmptyTermKeepsAll(loaded.GetOr([]));
      assert FilterProjects(loaded, term) == FilterProjects(Some(loaded.GetOr([])), "");
    }
  }
}
