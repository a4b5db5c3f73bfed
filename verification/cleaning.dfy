/** `clean_node` and `clean_graph` (clean_uri_graph.py): IRIs that the URL
    validator rejects are replaced by their `clean_uri` form; blank nodes,
    literals and accepted IRIs pass through unchanged.

    `check_valid_uri` delegates to the `validators` package, whose code is not
    part of this model; it is the uninterpreted parameter `valid`. */
module Cleaning {
  import opened Rdf
  import opened Quoting

  /** `clean_node(ref)`. The result is the input unless the input is an IRI the
      validator rejects and `clean_uri` changes; a changed node is the
      `clean_uri` form of the original IRI, well quoted, and unquotes back to it. */
  function CleanNode(n: Term, valid: string -> bool): (r: Term)
    ensures r.Iri? <==> n.Iri?
    ensures r == n <==> !n.Iri? || valid(n.iri) || AllSafe(n.iri)
    ensures r != n ==> !valid(n.iri) && WellQuoted(r.iri) && Unquote(r.iri) == Outcome.Some(n.iri)
    ensures r != n ==> r == Iri(Quote(n.iri))
  {
    match n
    case Iri(u) =>
      if valid(u) then n
      else
        QuoteFixpoint(u);
        UnquoteQuote(u);
        Iri(Quote(u))
    case _ => n
  }

  /** If `n` is an IRI the validator rejects and `clean_uri` changes, the
      validator accepts the `clean_uri` form, as the cleaning tests assert for
      bracketed IRIs. */
  predicate CleanedAccepted(n: Term, valid: string -> bool) {
    n.Iri? && !valid(n.iri) && !AllSafe(n.iri) ==> valid(Quote(n.iri))
  }

  /** Every node of every statement of `g` satisfies `CleanedAccepted`. */
  predicate GraphCleanedAccepted(g: Graph, valid: string -> bool) {
    forall t :: t in g ==>
      CleanedAccepted(t.subj, valid) && CleanedAccepted(t.pred, valid) && CleanedAccepted(t.obj, valid)
  }

  /** Under that acceptance, cleaning a node twice is cleaning it once. */
  lemma {:induction false} CleanNodeIdempotent(n: Term, valid: string -> bool)
    requires CleanedAccepted(n, valid)
    ensures CleanNode(CleanNode(n, valid), valid) == CleanNode(n, valid)
  {
  }

  /** Cleaning a node is idempotent exactly when `CleanedAccepted` holds of it. */
  lemma {:induction false} CleanNodeIdempotentIff(n: Term, valid: string -> bool)
    ensures CleanNode(CleanNode(n, valid), valid) == CleanNode(n, valid) <==> CleanedAccepted(n, valid)
  {
    if CleanedAccepted(n, valid) {
      CleanNodeIdempotent(n, valid);
    } else {
      CleanNodeNotIdempotent(n.iri, valid);
    }
  }

  /** Without it, a rejected IRI that needed an escape keeps changing. */
  lemma {:induction false} CleanNodeNotIdempotent(u: string, valid: string -> bool)
    requires !valid(u) && !valid(Quote(u)) && !AllSafe(u)
    ensures CleanNode(CleanNode(Iri(u), valid), valid) != CleanNode(Iri(u), valid)
  {
    QuoteNotIdempotent(u);
  }

  /** The tuple comprehension of `clean_graph`: every position cleaned alike. */
  function CleanTriple(t: Triple, valid: string -> bool): Triple
  {
    Triple(CleanNode(t.subj, valid), CleanNode(t.pred, valid), CleanNode(t.obj, valid))
  }

  /** `clean_graph(bgraph)`: the image of the input under `CleanTriple`. Every
      input statement is represented, nothing else appears, and since cleaning
      may merge statements the graph can only shrink. */
  function CleanGraph(g: Graph, valid: string -> bool): (r: Graph)
    ensures forall t :: t in g ==> CleanTriple(t, valid) in r
    ensures forall u :: u in r ==> exists t :: t in g && CleanTriple(t, valid) == u
    ensures |r| <= |g|
  {
    var r := set t | t in g :: CleanTriple(t, valid);
    ImageSize(g, r, valid);
    r
  }

  /** The image of a set under the cleaning map is no larger than the set. */
  lemma {:induction false} ImageSize(g: Graph, r: Graph, valid: string -> bool)
    requires r == set t | t in g :: CleanTriple(t, valid)
    ensures |r| <= |g|
    decreases |g|
  {
    if g != {} {
      var t :| t in g;
      var g' := g - {t};
      var r' := set x | x in g' :: CleanTriple(x, valid);
      ImageSize(g', r', valid);
      assert r <= r' + {CleanTriple(t, valid)};
      assert |r' + {CleanTriple(t, valid)}| <= |r'| + 1;
      SubsetSize(r, r' + {CleanTriple(t, valid)});
    }
  }

  lemma {:induction false} SubsetSize<T>(a: set<T>, b: set<T>)
    requires a <= b
    ensures |a| <= |b|
  {
    assert b == a + (b - a);
  }

  /** A graph whose every statement `CleanTriple` leaves unchanged is returned
      unchanged. */
  lemma {:induction false} CleanGraphKeepsValid(g: Graph, valid: string -> bool)
    requires forall t :: t in g ==> CleanTriple(t, valid) == t
    ensures CleanGraph(g, valid) == g
  {
  }

  /** A term the validator has nothing against: not an IRI, or an accepted one. */
  predicate Accepted(n: Term, valid: string -> bool) {
    n.Iri? ==> valid(n.iri)
  }

  /** When the validator accepts every IRI of the graph, in every position,
      cleaning changes nothing. */
  lemma {:induction false} CleanGraphAllAccepted(g: Graph, valid: string -> bool)
    requires forall t :: t in g ==> Accepted(t.subj, valid) && Accepted(t.pred, valid) && Accepted(t.obj, valid)
    ensures CleanGraph(g, valid) == g
  {
    CleanGraphKeepsValid(g, valid);
  }

  /** When the validator accepts the cleaned form of every IRI of `g` it
      rejects, cleaning `g` twice is cleaning it once. */
  lemma {:induction false} CleanGraphIdempotent(g: Graph, valid: string -> bool)
    requires GraphCleanedAccepted(g, valid)
    ensures CleanGraph(CleanGraph(g, valid), valid) == CleanGraph(g, valid)
  {
    var once := CleanGraph(g, valid);
    forall t | t in once
      ensures CleanTriple(t, valid) == t
    {
      var s :| s in g && CleanTriple(s, valid) == t;
      CleanNodeIdempotent(s.subj, valid);
      CleanNodeIdempotent(s.pred, valid);
      CleanNodeIdempotent(s.obj, valid);
    }
    CleanGraphKeepsValid(once, valid);
  }
}
