/**
 * The reader table that `build_and_persist_index` hands to the directory
 * reader (bot.py `file_extractor`): each registered file suffix maps to one
 * of three reader families.
 */
module Readers {

  datatype Reader = PdfReader | DocxReader | UnstructuredReader

  /** The table's answer for one suffix; a suffix without an entry is an explicit case. */
  datatype Dispatch = Registered(reader: Reader) | NotRegistered

  /** The table as the source writes it, suffix by suffix. */
  const FileExtractor: map<string, Reader> := map[
    ".pdf" := PdfReader,
    ".docx" := DocxReader,
    ".doc" := UnstructuredReader,
    ".odt" := UnstructuredReader,
    ".xls" := UnstructuredReader,
    ".xlsx" := UnstructuredReader,
    ".pptx" := UnstructuredReader,
    ".txt" := UnstructuredReader,
    ".md" := UnstructuredReader,
    ".rst" := UnstructuredReader,
    ".html" := UnstructuredReader,
    ".htm" := UnstructuredReader
  ]

  /** The suffixes read by the generic reader. */
  const UnstructuredSuffixes: set<string> :=
    {".doc", ".odt", ".xls", ".xlsx", ".pptx", ".txt", ".md", ".rst", ".html", ".htm"}

  /** The table's entry for a suffix, looked up exactly as the dictionary's keys are written. */
  function ReaderFor(suffix: string): (d: Dispatch)
    ensures d == Registered(PdfReader) <==> suffix == ".pdf"
    ensures d == Registered(DocxReader) <==> suffix == ".docx"
    ensures d == Registered(UnstructuredReader) <==> suffix in UnstructuredSuffixes
    ensures d == NotRegistered <==> suffix !in UnstructuredSuffixes + {".pdf", ".docx"}
  {
    if suffix in FileExtractor then Registered(FileExtractor[suffix]) else NotRegistered
  }

  /** Exactly twelve suffixes are registered. */
  lemma TwelveSuffixes()
    ensures FileExtractor.Keys == UnstructuredSuffixes + {".pdf", ".docx"}
    ensures |FileExtractor.Keys| == 12
  {
    var keys := [".pdf", ".docx", ".doc", ".odt", ".xls", ".xlsx", ".pptx", ".txt", ".md", ".rst", ".html", ".htm"];
    assert FileExtractor.Keys == set k | k in keys;
    assert forall i, j :: 0 <= i < j < |keys| ==> keys[i] != keys[j];
    DistinctCard(keys);
  }

  lemma {:induction false} DistinctCard(keys: seq<string>)
    requires forall i, j :: 0 <= i < j < |keys| ==> keys[i] != keys[j]
    ensures |set k | k in keys| == |keys|
    decreases |keys|
  {
    if keys != [] {
      DistinctCard(keys[1..]);
      assert (set k | k in keys) == (set k | k in keys[1..]) + {keys[0]};
      assert keys[0] !in keys[1..];
    }
  }
}
