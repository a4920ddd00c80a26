/** Document records and `format_docs`, which concatenates their contents for a prompt. */
module Docs {
  import opened Strings

  /**
   * A loaded page or chunk: its text and an open metadata mapping (source URL,
   * page id, ...), whose values are kept here as text.
   */
  datatype Document = Document(pageContent: string, metadata: map<string, string>)

  /** The separator `format_docs` puts between two documents. */
  const Paragraph: string := "\n\n"

  /** The `page_content` of each document, in list order. */
  function Contents(docs: seq<Document>): (r: seq<string>)
    ensures |r| == |docs|
    ensures forall i :: 0 <= i < |docs| ==> r[i] == docs[i].pageContent
  {
    if docs == [] then [] else [docs[0].pageContent] + Contents(docs[1..])
  }

  /**
   * `format_docs`: the contents joined with a blank line between neighbours. No
   * documents give the empty text and a single document gives exactly its content.
   */
  function FormatDocs(docs: seq<Document>): (r: string)
    ensures docs == [] ==> r == []
    ensures |docs| == 1 ==> r == docs[0].pageContent
  {
    Join(Contents(docs), Paragraph)
  }

  lemma {:induction false} ContentsAppend(a: seq<Document>, b: seq<Document>)
    ensures Contents(a + b) == Contents(a) + Contents(b)
  {
    if a == [] {
      assert a + b == b;
    } else {
      assert (a + b)[1..] == a[1..] + b;
      ContentsAppend(a[1..], b);
    }
  }

  /**
   * Formatting two non-empty lists one after the other is formatting each and
   * putting one blank line between them: the contents appear in list order.
   */
  lemma FormatDocsAppend(a: seq<Document>, b: seq<Document>)
    requires a != [] && b != []
    ensures FormatDocs(a + b) == FormatDocs(a) + Paragraph + FormatDocs(b)
  {
    ContentsAppend(a, b);
    JoinAppend(Contents(a), Contents(b), Paragraph);
  }

  /** The first document's content comes first, then a blank line, then the rest. */
  lemma FormatDocsCons(docs: seq<Document>)
    requires |docs| >= 2
    ensures FormatDocs(docs) == docs[0].pageContent + Paragraph + FormatDocs(docs[1..])
  {
    FormatDocsAppend(docs[..1], docs[1..]);
    assert docs[..1] + docs[1..] == docs;
  }

  /** The text is exactly as long as all contents together plus two characters per gap. */
  lemma FormatDocsLength(docs: seq<Document>)
    requires docs != []
    ensures |FormatDocs(docs)| == TotalLength(Contents(docs)) + 2 * (|docs| - 1)
  {
    JoinLength(Contents(docs), Paragraph);
  }
}
