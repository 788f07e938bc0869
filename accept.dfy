/**
 * The router's choice between serving a GraphQL answer and redirecting a
 * browser to Apollo Studio: `prefers_html` over the `Accept` header
 * (`apollo-router/src/warp_http_server_factory.rs`, lines 217 and 367-372).
 * The header is split on commas, every entry is trimmed, and the answer is
 * whether one entry is exactly `text/html`. There is no media-type parsing:
 * parameters, case and wildcards are not understood.
 */
module AcceptHeader {
  import opened Wrappers
  import opened Text

  const TEXT_HTML: string := "text/html"

  /** `.map(|a| a.trim()).any(|a| a == "text/html")` over the entries. */
  function AnyHtml(entries: seq<string>): (r: bool)
    ensures r <==> exists i :: 0 <= i < |entries| && Trim(entries[i]) == TEXT_HTML
    decreases |entries|
  {
    if entries == [] then false
    else Trim(entries[0]) == TEXT_HTML || AnyHtml(entries[1..])
  }

  /** `prefers_html(accept_header)`. */
  function PrefersHtml(accept: string): bool
  {
    AnyHtml(Split(accept, ','))
  }

  /** The header prefers HTML exactly when one of its comma-separated entries, trimmed, is `text/html`. */
  lemma PrefersHtmlEntries(accept: string, entries: seq<string>)
    requires entries == Split(accept, ',')
    ensures PrefersHtml(accept) <==> exists i :: 0 <= i < |entries| && Trim(entries[i]) == TEXT_HTML
  {
  }

  /** `accept.map(prefers_html).unwrap_or_default()`: a missing header does not ask for HTML. */
  function RedirectsToStudio(accept: Option<string>): (r: bool)
    ensures r ==> accept.Some?
  {
    match accept
    case Some(header) => PrefersHtml(header)
    case None => false
  }

  lemma AnyHtmlConcat(a: seq<string>, b: seq<string>)
    ensures AnyHtml(a + b) <==> AnyHtml(a) || AnyHtml(b)
  {
    var ab := a + b;
    if AnyHtml(a) {
      var i :| 0 <= i < |a| && Trim(a[i]) == TEXT_HTML;
      assert ab[i] == a[i];
    }
    if AnyHtml(b) {
      var i :| 0 <= i < |b| && Trim(b[i]) == TEXT_HTML;
      assert ab[|a| + i] == b[i];
    }
    if AnyHtml(ab) {
      var i :| 0 <= i < |ab| && Trim(ab[i]) == TEXT_HTML;
      if i < |a| { assert a[i] == ab[i]; } else { assert b[i - |a|] == ab[i]; }
    }
  }

  /** A header of one entry prefers HTML exactly when that entry, trimmed, is `text/html`. */
  lemma SingleEntry(accept: string)
    requires ',' !in accept
    ensures PrefersHtml(accept) <==> Trim(accept) == TEXT_HTML
  {
    SplitWithoutSeparator(accept, ',');
  }

  /**
   * A header built from comma-free entries prefers HTML exactly when one of
   * those entries, trimmed, is `text/html`.
   */
  lemma JoinedEntries(entries: seq<string>)
    requires |entries| >= 1 && forall i :: 0 <= i < |entries| ==> ',' !in entries[i]
    ensures PrefersHtml(JoinWith(entries, ',')) <==> exists i :: 0 <= i < |entries| && Trim(entries[i]) == TEXT_HTML
  {
    SplitJoin(entries, ',');
  }

  /** The order of two groups of entries does not matter. */
  lemma EntryOrderIrrelevant(s: string, t: string)
    ensures PrefersHtml(s + [','] + t) == PrefersHtml(t + [','] + s)
  {
    SplitAround(s, ',', t);
    SplitAround(t, ',', s);
    AnyHtmlConcat(Split(s, ','), Split(t, ','));
    AnyHtmlConcat(Split(t, ','), Split(s, ','));
  }

  /** More entries, before or after, never turn a preference for HTML off. */
  lemma MoreEntriesKeepPreference(s: string, t: string)
    requires PrefersHtml(s)
    ensures PrefersHtml(s + [','] + t) && PrefersHtml(t + [','] + s)
  {
    SplitAround(s, ',', t);
    SplitAround(t, ',', s);
    AnyHtmlConcat(Split(s, ','), Split(t, ','));
    AnyHtmlConcat(Split(t, ','), Split(s, ','));
  }

  /** Surrounding whitespace is dropped, and one matching entry among others is enough. */
  lemma MatchingExamples()
    ensures PrefersHtml("text/html")
    ensures PrefersHtml(" text/html ")
    ensures PrefersHtml("application/json, text/html")
  {
    ExactExample();
    PaddedExample();
    ListExample();
  }

  lemma ExactExample()
    ensures PrefersHtml("text/html")
  {
    NoCommaIn("text/html");
    TrimUntouched("text/html");
    SingleEntry("text/html");
  }

  lemma PaddedExample()
    ensures PrefersHtml(" text/html ")
  {
    NoCommaIn(" text/html ");
    TrimPadded(" text/html ");
    SingleEntry(" text/html ");
  }

  lemma TrimPadded(padded: string)
    requires padded == " " + TEXT_HTML + " "
    ensures Trim(padded) == TEXT_HTML
  {
    TrimAround(" ", TEXT_HTML, " ");
  }

  lemma ListExample()
    ensures PrefersHtml("application/json, text/html")
  {
    SpacedExample();
    ListShape();
    MoreEntriesKeepPreference(" text/html", "application/json");
  }

  lemma SpacedExample()
    ensures PrefersHtml(" text/html")
  {
    NoCommaIn(" text/html");
    TrimSpaced(" text/html");
    SingleEntry(" text/html");
  }

  lemma TrimSpaced(spaced: string)
    requires spaced == " " + TEXT_HTML
    ensures Trim(spaced) == TEXT_HTML
  {
    TrimAround(" ", TEXT_HTML, "");
    assert spaced + "" == spaced;
  }

  lemma ListShape()
    ensures "application/json, text/html" == "application/json" + [','] + " text/html"
  {
  }

  lemma NoCommaIn(s: string)
    requires forall i :: 0 <= i < |s| ==> s[i] != ','
    ensures ',' !in s
  {
  }

  /**
   * Matching is exact: a parameter or a change of case is not understood,
   * and an empty header asks for nothing.
   */
  lemma NonMatchingExamples()
    ensures !PrefersHtml("text/html;q=0.9")
    ensures !PrefersHtml("Text/HTML")
    ensures !PrefersHtml("")
    ensures !PrefersHtml("application/json")
  {
    ParameterExample();
    CaseExample();
    SingleEntry("");
    JsonExample();
  }

  lemma ParameterExample()
    ensures !PrefersHtml("text/html;q=0.9")
  {
    NoCommaIn("text/html;q=0.9");
    NoMatch("text/html;q=0.9");
  }

  lemma CaseExample()
    ensures !PrefersHtml("Text/HTML")
  {
    NoCommaIn("Text/HTML");
    NoMatch("Text/HTML");
  }

  lemma JsonExample()
    ensures !PrefersHtml("application/json")
  {
    NoCommaIn("application/json");
    NoMatch("application/json");
  }

  /** A single entry with no whitespace at its ends matches only if it is `text/html` itself. */
  lemma NoMatch(entry: string)
    requires |entry| > 0 && ',' !in entry && !IsWhitespace(entry[0]) && !IsWhitespace(entry[|entry| - 1])
    requires entry != TEXT_HTML
    ensures !PrefersHtml(entry)
  {
    TrimUntouched(entry);
    SingleEntry(entry);
  }

  /** The redirect test: `text/html` redirects, `application/json` and a missing header do not. */
  lemma RedirectExamples()
    ensures RedirectsToStudio(Some("text/html"))
    ensures !RedirectsToStudio(Some("application/json"))
    ensures !RedirectsToStudio(None)
  {
    MatchingExamples();
    NonMatchingExamples();
  }
}
