/**
 * `ExternalLinkAdder.run`: for every answer, look up the document each of its references names,
 * collect the `src_url` of every document found, and append one numbered footnote per URL to the
 * answer's text.
 */
module LinkAdder {
  import opened Wrappers
  import opened Indexing
  import opened Decimal
  import opened Metadata

  /** A candidate source document of an answer. */
  datatype SourceDocument = SourceDocument(id: string, meta: Meta)

  /** One entry of an answer's `_references` list: the `document_id` it cites. */
  datatype Reference = Reference(documentId: string)

  /**
   * The position of the first document with the given id, if any: the inner loop, which stops at
   * the first match.
   */
  function MatchIndex(docs: seq<SourceDocument>, id: string): (k: Option<nat>)
    ensures k.Some? ==> k.value < |docs| && docs[k.value].id == id && forall j :: 0 <= j < k.value ==> docs[j].id != id
    ensures k.None? ==> forall j :: 0 <= j < |docs| ==> docs[j].id != id
    decreases |docs|
  {
    if docs == [] then None
    else if docs[0].id == id then Some(0)
    else
      match MatchIndex(docs[1..], id)
      case None => None
      case Some(k) => Some(k + 1)
  }

  /** Every document a reference resolves to carries `src_url` (otherwise `meta['src_url']` raises). */
  predicate SourceUrlsPresent(refs: seq<Reference>, docs: seq<SourceDocument>) {
    forall i :: 0 <= i < |refs| ==> HasSourceUrl(refs[i], docs)
  }

  /** The document the reference resolves to, if any, carries `src_url`. */
  predicate HasSourceUrl(r: Reference, docs: seq<SourceDocument>) {
    match MatchIndex(docs, r.documentId)
    case None => true
    case Some(k) => "src_url" in docs[k].meta
  }

  /** The `src_url` of the first document a matching reference names. */
  function UrlOf(r: Reference, docs: seq<SourceDocument>): string
    requires MatchIndex(docs, r.documentId).Some? && HasSourceUrl(r, docs)
  {
    docs[MatchIndex(docs, r.documentId).value].meta["src_url"]
  }

  /** What one reference adds to the collected links: its URL, or nothing when no document matches. */
  function LinkOf(r: Reference, docs: seq<SourceDocument>): seq<string>
    requires HasSourceUrl(r, docs)
  {
    if MatchIndex(docs, r.documentId).Some? then [UrlOf(r, docs)] else []
  }

  /** The URLs collected for the references, in reference order; a reference that matches nothing adds none. */
  function ExternalLinks(refs: seq<Reference>, docs: seq<SourceDocument>): (links: seq<string>)
    requires SourceUrlsPresent(refs, docs)
    ensures |links| <= |refs|
    decreases |refs|
  {
    if refs == [] then []
    else
      var n := |refs| - 1;
      ExternalLinks(refs[..n], docs) + LinkOf(refs[n], docs)
  }

  /** The positions of the references that match some document. */
  function MatchedReferences(refs: seq<Reference>, docs: seq<SourceDocument>): seq<nat> {
    Indices(|refs|, (i: nat) => i < |refs| && MatchIndex(docs, refs[i].documentId).Some?)
  }

  /**
   * The collected links are exactly, in reference order, the `src_url` of the first document
   * matching each reference that matches one; references to the same document each give a link.
   */
  lemma {:induction false} ExternalLinksMatch(refs: seq<Reference>, docs: seq<SourceDocument>)
    requires SourceUrlsPresent(refs, docs)
    ensures var links, m := ExternalLinks(refs, docs), MatchedReferences(refs, docs);
      |links| == |m| &&
      forall k :: 0 <= k < |m| ==> links[k] == UrlOf(refs[m[k]], docs)
    decreases |refs|
  {
    if refs != [] {
      var n := |refs| - 1;
      var front := refs[..n];
      forall i | 0 <= i < |front| ensures HasSourceUrl(front[i], docs) {
        assert front[i] == refs[i];
      }
      ExternalLinksMatch(front, docs);
      var p := (i: nat) => i < |refs| && MatchIndex(docs, refs[i].documentId).Some?;
      IndicesAgree(n, (i: nat) => i < |front| && MatchIndex(docs, front[i].documentId).Some?, p);
      var mf, m := Indices(n, p), Indices(|refs|, p);
      assert m == if p(n) then mf + [n] else mf;
      var lf, links := ExternalLinks(front, docs), ExternalLinks(refs, docs);
      assert links == lf + LinkOf(refs[n], docs);
      forall k | 0 <= k < |mf| ensures links[k] == UrlOf(refs[mf[k]], docs) {
        assert mf[k] < n && front[mf[k]] == refs[mf[k]];
        assert links[k] == lf[k];
      }
      if p(n) {
        assert links[|mf|] == UrlOf(refs[n], docs);
      }
    }
  }

  /** No link is collected exactly when no reference matches a document. */
  lemma NoLinksIffNoMatch(refs: seq<Reference>, docs: seq<SourceDocument>)
    requires SourceUrlsPresent(refs, docs)
    ensures ExternalLinks(refs, docs) == [] <==>
      forall i :: 0 <= i < |refs| ==> MatchIndex(docs, refs[i].documentId).None?
  {
    var p := (i: nat) => i < |refs| && MatchIndex(docs, refs[i].documentId).Some?;
    var m := Indices(|refs|, p);
    ExternalLinksMatch(refs, docs);
    if ExternalLinks(refs, docs) == [] {
      IndicesEmpty(|refs|, p);
      forall i | 0 <= i < |refs| ensures MatchIndex(docs, refs[i].documentId).None? {
        assert !p(i);
      }
    } else {
      assert m != [] && p(m[0]);
    }
  }

  /** The links of a concatenation of reference lists are the concatenation of their links. */
  lemma {:induction false} ExternalLinksAppend(a: seq<Reference>, b: seq<Reference>, docs: seq<SourceDocument>)
    requires SourceUrlsPresent(a + b, docs)
    ensures SourceUrlsPresent(a, docs) && SourceUrlsPresent(b, docs)
    ensures ExternalLinks(a + b, docs) == ExternalLinks(a, docs) + ExternalLinks(b, docs)
    decreases |b|
  {
    var ab := a + b;
    forall i | 0 <= i < |a| ensures HasSourceUrl(a[i], docs) {
      assert ab[i] == a[i];
    }
    forall i | 0 <= i < |b| ensures HasSourceUrl(b[i], docs) {
      assert ab[|a| + i] == b[i];
    }
    if b == [] {
      assert ab == a;
    } else {
      var n := |b| - 1;
      var front := a + b[..n];
      assert ab[..|ab| - 1] == front;
      assert ab[|ab| - 1] == b[n];
      forall i | 0 <= i < |front| ensures HasSourceUrl(front[i], docs) {
        assert front[i] == ab[i];
      }
      ExternalLinksAppend(a, b[..n], docs);
      assert ExternalLinks(ab, docs) == ExternalLinks(front, docs) + LinkOf(b[n], docs);
      assert ExternalLinks(b, docs) == ExternalLinks(b[..n], docs) + LinkOf(b[n], docs);
    }
  }

  /** One footnote: `"\n\n[Ext n](url)"`. */
  function Footnote(n: nat, url: string): string {
    "\n\n[Ext " + DecimalString(n) + "](" + url + ")"
  }

  /** The footnotes for the links, the k-th link (from 0) numbered k + 1, in link order. */
  function Footnotes(links: seq<string>): string
    decreases |links|
  {
    if links == [] then "" else Footnotes(links[..|links| - 1]) + Footnote(|links|, links[|links| - 1])
  }

  /** A reference definition: the footnotes for the links numbered consecutively from `n`. */
  function FootnotesFrom(links: seq<string>, n: nat): string
    decreases |links|
  {
    if links == [] then "" else Footnote(n, links[0]) + FootnotesFrom(links[1..], n + 1)
  }

  /** Numbering carries on across a split of the links. */
  lemma {:induction false} FootnotesFromAppend(a: seq<string>, b: seq<string>, n: nat)
    ensures FootnotesFrom(a + b, n) == FootnotesFrom(a, n) + FootnotesFrom(b, n + |a|)
    decreases |a|
  {
    if a == [] {
      assert a + b == b;
    } else {
      assert (a + b)[1..] == a[1..] + b;
      FootnotesFromAppend(a[1..], b, n + 1);
    }
  }

  /** The footnotes are numbered 1, 2, ..., k, one per link, in link order. */
  lemma {:induction false} FootnotesNumberedFromOne(links: seq<string>)
    ensures Footnotes(links) == FootnotesFrom(links, 1)
    decreases |links|
  {
    if links != [] {
      var n := |links| - 1;
      FootnotesNumberedFromOne(links[..n]);
      FootnotesFromAppend(links[..n], [links[n]], 1);
      assert links[..n] + [links[n]] == links;
    }
  }

  /** There are footnotes exactly when there are links. */
  lemma FootnotesEmptyIff(links: seq<string>)
    ensures Footnotes(links) == "" <==> links == []
  {
  }

  /** A footnote determines its number and its URL. */
  lemma FootnoteInjective(m: nat, u: string, n: nat, v: string)
    requires Footnote(m, u) == Footnote(n, v)
    ensures m == n && u == v
  {
    var head := "\n\n[Ext ";
    var dm, dn := DecimalString(m), DecimalString(n);
    var x := Footnote(m, u);
    var p := |head|;
    assert x[p..] == dm + ("](" + u + ")");
    assert x[p..] == dn + ("](" + v + ")");
    LeadingDigitsOfNumeral(dm, "](" + u + ")");
    LeadingDigitsOfNumeral(dn, "](" + v + ")");
    assert dm == x[p..][..|dm|] == dn;
    DecimalStringInjective(m, n);
    assert u == x[p + |dm| + 2..|x| - 1] == v;
  }

  /**
   * The footnote block is empty, so the text is left as it was, exactly when no reference
   * matches a document; in particular when there are no references at all.
   */
  lemma FootnoteBlockEmptyIff(refs: seq<Reference>, docs: seq<SourceDocument>)
    requires SourceUrlsPresent(refs, docs)
    ensures Footnotes(ExternalLinks(refs, docs)) == "" <==>
      forall i :: 0 <= i < |refs| ==> MatchIndex(docs, refs[i].documentId).None?
  {
    NoLinksIffNoMatch(refs, docs);
    FootnotesEmptyIff(ExternalLinks(refs, docs));
  }

  /** Two references to the same document give two footnotes, numbered 1 and 2, not one. */
  lemma SameDocumentTwice(r: Reference, docs: seq<SourceDocument>)
    requires MatchIndex(docs, r.documentId).Some? && HasSourceUrl(r, docs)
    ensures SourceUrlsPresent([r, r], docs)
    ensures Footnotes(ExternalLinks([r, r], docs)) == Footnote(1, UrlOf(r, docs)) + Footnote(2, UrlOf(r, docs))
  {
    var u := UrlOf(r, docs);
    SameDocumentTwiceLinks(r, docs);
    TwoFootnotes(u, u);
  }

  /** The links for two references to the same document: its URL, twice. */
  lemma SameDocumentTwiceLinks(r: Reference, docs: seq<SourceDocument>)
    requires MatchIndex(docs, r.documentId).Some? && HasSourceUrl(r, docs)
    ensures SourceUrlsPresent([r, r], docs)
    ensures ExternalLinks([r, r], docs) == [UrlOf(r, docs), UrlOf(r, docs)]
  {
    assert [r, r][..1] == [r];
    assert [r][..0] == [];
  }

  /** The footnotes for two links are numbered 1 and 2. */
  lemma TwoFootnotes(u: string, v: string)
    ensures Footnotes([u, v]) == Footnote(1, u) + Footnote(2, v)
  {
    assert [u, v][..1] == [u];
    assert [u][..0] == [];
    assert Footnotes([u]) == Footnote(1, u);
  }

  /** The repeated concatenation of `s`, `n` times. */
  function Repeat(s: string, n: nat): string
    decreases n
  {
    if n == 0 then "" else Repeat(s, n - 1) + s
  }

  /** An answer: its text (`data`), its candidate source documents and its `_references` metadata entry. */
  class Answer {
    var data: string
    const documents: seq<SourceDocument>
    const references: Option<seq<Reference>>

    constructor (data: string, documents: seq<SourceDocument>, references: Option<seq<Reference>>)
      ensures this.data == data && this.documents == documents && this.references == references
    {
      this.data := data;
      this.documents := documents;
      this.references := references;
    }

    /** The references to resolve: none when `_references` is absent. */
    function CitedReferences(): seq<Reference>
    {
      match references
      case None => []
      case Some(refs) => refs
    }

    /** Every document one of the answer's references resolves to carries `src_url`. */
    predicate Linkable()
    {
      SourceUrlsPresent(CitedReferences(), documents)
    }

    /** The footnote block `run` appends to this answer. */
    function FootnoteText(): string
      requires Linkable()
    {
      Footnotes(ExternalLinks(CitedReferences(), documents))
    }
  }

  /** The nested loops of `run`: the `src_url` of the first matching document for each reference. */
  method CollectExternalLinks(refs: seq<Reference>, docs: seq<SourceDocument>) returns (links: seq<string>)
    requires SourceUrlsPresent(refs, docs)
    ensures links == ExternalLinks(refs, docs)
  {
    links := [];
    for i := 0 to |refs|
      invariant links == ExternalLinks(refs[..i], docs)
    {
      assert refs[..i + 1][..i] == refs[..i];
      var documentId := refs[i].documentId;
      for j := 0 to |docs|
        invariant links == ExternalLinks(refs[..i], docs)
        invariant forall l :: 0 <= l < j ==> docs[l].id != documentId
      {
        if docs[j].id == documentId {
          assert MatchIndex(docs, documentId) == Some(j);
          links := links + [docs[j].meta["src_url"]];
          break;
        }
      }
    }
    assert refs[..|refs|] == refs;
  }

  /** The string-building loop of `run`: `"\n\n[Ext {i+1}]({link})"` for each link, concatenated. */
  method FormatFootnotes(links: seq<string>) returns (s: string)
    ensures s == Footnotes(links)
  {
    s := "";
    for i := 0 to |links|
      invariant s == Footnotes(links[..i])
    {
      assert links[..i + 1][..i] == links[..i];
      s := s + Footnote(i + 1, links[i]);
    }
    assert links[..|links|] == links;
  }

  /** The body of `run`'s loop for one answer: its footnote block is appended to its text. */
  method AddExternalLinks(answer: Answer)
    requires answer.Linkable()
    modifies answer
    ensures answer.data == old(answer.data) + answer.FootnoteText()
  {
    var externalLinks: seq<string> := [];
    if answer.references.Some? && answer.references.value != [] {
      externalLinks := CollectExternalLinks(answer.references.value, answer.documents);
    }
    if externalLinks != [] {
      var externalLinkStr := FormatFootnotes(externalLinks);
      answer.data := answer.data + externalLinkStr;
    }
  }

  /** How many times `a` appears in `answers`. */
  function Occurrences(answers: seq<Answer>, a: Answer): nat
    decreases |answers|
  {
    if answers == [] then 0
    else Occurrences(answers[..|answers| - 1], a) + if answers[|answers| - 1] == a then 1 else 0
  }

  /** Appending the block once more to a text that already holds `c` copies of it gives `c + 1`. */
  lemma AppendOnceMore(original: string, before: string, text: string, c: nat)
    requires before == original + Repeat(text, c)
    ensures before + text == original + Repeat(text, c + 1)
  {
  }

  /** Extending the processed prefix by one answer adds one occurrence of that answer only. */
  lemma OccurrencesStep(answers: seq<Answer>, i: nat, a: Answer)
    requires i < |answers|
    ensures Occurrences(answers[..i + 1], a) == Occurrences(answers[..i], a) + if answers[i] == a then 1 else 0
  {
    assert answers[..i + 1][..i] == answers[..i];
  }

  /**
   * `run`: the same answers, in the same order, each with its footnote block appended to its text
   * once per time it appears in the list; nothing else changes.
   */
  method Run(answers: seq<Answer>) returns (result: seq<Answer>)
    requires forall a :: a in answers ==> a.Linkable()
    modifies set a | a in answers
    ensures result == answers
    ensures forall a :: a in answers ==> a.data == old(a.data) + Repeat(a.FootnoteText(), Occurrences(answers, a))
    ensures forall a :: a in answers && Occurrences(answers, a) == 1 ==> a.data == old(a.data) + a.FootnoteText()
  {
    for i := 0 to |answers|
      invariant forall a :: a in answers ==> a.data == old(a.data) + Repeat(a.FootnoteText(), Occurrences(answers[..i], a))
    {
      var answer := answers[i];
      label Before:
      AddExternalLinks(answer);
      forall a | a in answers
        ensures a.data == old(a.data) + Repeat(a.FootnoteText(), Occurrences(answers[..i + 1], a))
      {
        OccurrencesStep(answers, i, a);
        if a == answer {
          AppendOnceMore(old(a.data), old@Before(a.data), a.FootnoteText(), Occurrences(answers[..i], a));
        }
      }
    }
    assert answers[..|answers|] == answers;
    forall a | a in answers && Occurrences(answers, a) == 1
      ensures a.data == old(a.data) + a.FootnoteText()
    {
      AppendOnceMore(old(a.data), old(a.data), a.FootnoteText(), 0);
    }
    result := answers;
  }
}
