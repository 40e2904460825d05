/** The driver of main.py: the text of a PDF is the text of its pages joined
    in page order (`encontrar_protocolo_no_pdf`), and every `.pdf` name of the
    source directory yields one copy, named after the protocol found in it or
    kept under its own name in the not-found folder (`processar_pdfs`).

    Reading PDFs and the file system are outside the model: the pages of the
    document at a path are given by the parameter `document`, the directory
    listing by `listing`, and the copies are returned as a list of actions
    instead of being performed. */
module Renamer {
  import opened Wrappers
  import opened Chars
  import opened Pattern
  import opened Normalize
  import opened Paths

  const PdfSuffix: string := ".pdf"

  /** The folder, relative to the destination, for files without a protocol. */
  const NotFoundFolder: string := "./naoEncontrado"

  /** One `shutil.copy(source, target)`. */
  datatype Copy = Copy(source: string, target: string)

  /** The total number of characters on the pages. */
  function TextLength(pages: seq<string>): nat {
    if pages == [] then 0 else TextLength(pages[..|pages| - 1]) + |pages[|pages| - 1]|
  }

  /** The texts of the pages, one after the other, with nothing in between:
      no character is added or lost. */
  function PagesText(pages: seq<string>): (text: string)
    ensures |text| == TextLength(pages)
  {
    if pages == [] then "" else PagesText(pages[..|pages| - 1]) + pages[|pages| - 1]
  }

  /** The text opens with the first page and closes with the last. */
  lemma {:induction false} PagesTextEnds(pages: seq<string>)
    requires pages != []
    ensures StartsWith(PagesText(pages), pages[0])
    ensures EndsWith(PagesText(pages), pages[|pages| - 1])
  {
    var init := pages[..|pages| - 1];
    if init != [] {
      PagesTextEnds(init);
      assert init[0] == pages[0];
      var text := PagesText(init);
      assert (text + pages[|pages| - 1])[..|pages[0]|] == text[..|pages[0]|];
    }
  }

  /** Cutting the page list anywhere cuts the text at the matching place. */
  lemma {:induction false} PagesTextSplit(pages: seq<string>, i: nat)
    requires i <= |pages|
    ensures PagesText(pages) == PagesText(pages[..i]) + PagesText(pages[i..])
  {
    var n := |pages|;
    if i == n {
      assert pages[..i] == pages && pages[i..] == [];
    } else {
      var init, last, tail := pages[..n - 1], pages[n - 1], pages[i..];
      assert PagesText(init) == PagesText(pages[..i]) + PagesText(init[i..]) by {
        PagesTextSplit(init, i);
        assert init[..i] == pages[..i];
      }
      assert PagesText(tail) == PagesText(init[i..]) + last by {
        assert tail[..|tail| - 1] == init[i..] && tail[|tail| - 1] == last;
      }
      assert PagesText(pages) == PagesText(init) + last;
    }
  }

  /** Page `k` sits in the text right after the pages before it and right
      before the pages after it: no separator is inserted. */
  lemma PageInPlace(pages: seq<string>, k: nat)
    requires k < |pages|
    ensures PagesText(pages) == PagesText(pages[..k]) + pages[k] + PagesText(pages[k + 1..])
  {
    var front := pages[..k + 1];
    assert PagesText(front) == PagesText(pages[..k]) + pages[k] by {
      assert front[..k] == pages[..k] && front[k] == pages[k];
    }
    PagesTextSplit(pages, k + 1);
  }

  lemma PagesTextOne(page: string)
    ensures PagesText([page]) == page
  {
    assert [page][..0] == [];
  }

  /** The loop `text += page.extract_text()` over the pages. */
  method ExtractText(pages: seq<string>) returns (text: string)
    ensures text == PagesText(pages)
  {
    text := "";
    for i := 0 to |pages|
      invariant text == PagesText(pages[..i])
    {
      assert pages[..i + 1][..i] == pages[..i];
      text := text + pages[i];
    }
    assert pages[..|pages|] == pages;
  }

  /** `encontrar_protocolo_no_pdf`: the first protocol in the document's text,
      label and spaces included when it is the labelled alternative. */
  method FindProtocolInPdf(pages: seq<string>) returns (protocol: Option<string>)
    ensures protocol == Search(PagesText(pages))
    ensures protocol.Some? ==> IsProtocol(protocol.value)
    ensures protocol.None? <==> NoMatchBetween(PagesText(pages), 0, |PagesText(pages)| + 1)
  {
    var text := ExtractText(pages);
    protocol := Search(text);
  }

  function NotFoundDir(destination: string): string {
    Join(destination, NotFoundFolder)
  }

  /** Where a processed file is copied: under its protocol's stripped form in
      the destination when a (truthy) protocol was found, else unchanged into
      the not-found folder. */
  function Target(destination: string, filename: string, protocol: Option<string>): (t: string)
    ensures protocol.Some? && protocol.value != "" ==> EndsWith(t, Strip(protocol.value) + PdfSuffix)
    ensures protocol.None? ==> EndsWith(t, filename)
    ensures EndsWith(filename, PdfSuffix) ==> EndsWith(t, PdfSuffix)
  {
    if protocol.Some? && protocol.value != "" then
      var name := Strip(protocol.value) + PdfSuffix;
      var t := Join(destination, name);
      assert EndsWith(name, PdfSuffix) by {
        assert name[|name| - |PdfSuffix|..] == PdfSuffix;
      }
      EndsWithTrans(t, name, PdfSuffix);
      t
    else
      var t := Join(NotFoundDir(destination), filename);
      EndsWithTrans(t, filename, PdfSuffix);
      t
  }

  /** The action for one name of the listing; none unless it ends in `.pdf`. */
  function Decide(source: string, destination: string, filename: string,
                  document: string -> seq<string>): (r: Option<Copy>)
    ensures r.Some? <==> EndsWith(filename, PdfSuffix)
    ensures r.Some? ==> r.value.source == Join(source, filename)
    ensures r.Some? ==> EndsWith(r.value.target, PdfSuffix)
    ensures r.Some? ==>
              r.value.target == Target(destination, filename, Search(PagesText(document(Join(source, filename)))))
  {
    if !EndsWith(filename, PdfSuffix) then None
    else
      var path := Join(source, filename);
      Some(Copy(path, Target(destination, filename, Search(PagesText(document(path))))))
  }

  /** The actions for a listing, in listing order: one per `.pdf` name, each
      copying to a `.pdf` path. */
  function Plan(source: string, destination: string, listing: seq<string>,
                document: string -> seq<string>): (r: seq<Copy>)
    ensures |r| == |PdfNames(listing)|
    ensures forall k | 0 <= k < |r| :: EndsWith(r[k].target, PdfSuffix)
  {
    if listing == [] then []
    else
      Plan(source, destination, listing[..|listing| - 1], document) +
      match Decide(source, destination, listing[|listing| - 1], document)
      case Some(c) => [c]
      case None => []
  }

  /** The names of the listing that end in `.pdf`, in order. */
  function PdfNames(listing: seq<string>): (r: seq<string>)
    ensures |r| <= |listing|
    ensures forall k | 0 <= k < |r| :: EndsWith(r[k], PdfSuffix)
  {
    if listing == [] then []
    else PdfNames(listing[..|listing| - 1]) +
         if EndsWith(listing[|listing| - 1], PdfSuffix) then [listing[|listing| - 1]] else []
  }

  /** Every `.pdf` name is processed as often as it is listed; no other name is. */
  lemma {:induction false} PdfNamesCounts(listing: seq<string>, name: string)
    ensures multiset(PdfNames(listing))[name] ==
            if EndsWith(name, PdfSuffix) then multiset(listing)[name] else 0
  {
    if listing != [] {
      var n := |listing|;
      PdfNamesCounts(listing[..n - 1], name);
      assert listing == listing[..n - 1] + [listing[n - 1]];
    }
  }

  /** Exactly one copy per processed file, in listing order: the k-th action is
      the decision for the k-th `.pdf` name. */
  lemma {:induction false} PlanOnePerPdf(source: string, destination: string, listing: seq<string>,
                                         document: string -> seq<string>)
    ensures |Plan(source, destination, listing, document)| == |PdfNames(listing)|
    ensures forall k | 0 <= k < |PdfNames(listing)| ::
              Decide(source, destination, PdfNames(listing)[k], document) ==
              Some(Plan(source, destination, listing, document)[k])
  {
    if listing != [] {
      PlanOnePerPdf(source, destination, listing[..|listing| - 1], document);
    }
  }

  /** `processar_pdfs`: one pass over the listing, one copy per `.pdf` name. */
  method ProcessPdfs(source: string, destination: string, listing: seq<string>,
                     document: string -> seq<string>) returns (copies: seq<Copy>)
    ensures copies == Plan(source, destination, listing, document)
  {
    copies := [];
    for i := 0 to |listing|
      invariant copies == Plan(source, destination, listing[..i], document)
    {
      assert listing[..i + 1][..i] == listing[..i];
      var filename := listing[i];
      if EndsWith(filename, PdfSuffix) {
        var pdfPath := Join(source, filename);
        var protocol := FindProtocolInPdf(document(pdfPath));
        var target;
        if protocol.Some? && protocol.value != "" {
          var newName := Strip(protocol.value) + PdfSuffix;
          target := Join(destination, newName);
        } else {
          target := Join(NotFoundDir(destination), filename);
        }
        copies := copies + [Copy(pdfPath, target)];
      }
    }
    assert listing[..|listing|] == listing;
  }

  /** A found protocol sends the copy straight into the destination, named by
      a non-empty stem of word characters followed by `.pdf`. */
  lemma TargetWhenFound(destination: string, filename: string, m: string)
    requires IsProtocol(m)
    ensures var t := Target(destination, filename, Some(m));
            t == Join(destination, Strip(m) + PdfSuffix) &&
            StartsWith(t, destination) && Basename(t) == Strip(m) + PdfSuffix &&
            |Strip(m)| >= 9 && AllWord(Strip(m))
  {
    var stem := Strip(m);
    var name := stem + PdfSuffix;
    StripProtocol(m);
    assert |m| >= 11;
    assert Sep !in name by {
      assert forall k | 0 <= k < |stem| :: IsWord(stem[k]);
      assert forall k | |stem| <= k < |name| :: name[k] == PdfSuffix[k - |stem|];
    }
    PlainIsRelative(name);
    JoinBasename(destination, name);
  }

  /** Without a protocol the copy keeps its name inside the not-found folder. */
  lemma TargetWhenNotFound(destination: string, filename: string)
    requires Sep !in filename
    ensures var t := Target(destination, filename, None);
            t == Join(NotFoundDir(destination), filename) &&
            StartsWith(t, NotFoundDir(destination)) && Basename(t) == filename
  {
    var dir := NotFoundDir(destination);
    PlainIsRelative(filename);
    assert Target(destination, filename, None) == Join(dir, filename);
    JoinBasename(dir, filename);
  }

  /** Just past the destination and its separator, a copy named after a
      protocol has a word character: the second character of its stem. */
  lemma FoundTargetShape(destination: string, named: string, m: string)
    requires IsProtocol(m)
    ensures var at := |destination| + Gap(destination) + 1;
            var found := Target(destination, named, Some(m));
            at < |found| && IsWord(found[at])
  {
    var name := Strip(m) + PdfSuffix;
    TargetWhenFound(destination, named, m);
    assert IsWord(name[1]) by {
      assert name[1] == Strip(m)[1];
    }
    assert !StartsWith(name, [Sep]) by {
      assert name[..1][0] == name[0] == Strip(m)[0];
    }
    JoinAt(destination, name, 1);
  }

  /** At the same place a copy in the not-found folder has the separator of
      "./naoEncontrado". */
  lemma LostTargetShape(destination: string, unnamed: string)
    requires Sep !in unnamed
    ensures var at := |destination| + Gap(destination) + 1;
            var lost := Target(destination, unnamed, None);
            at < |lost| && lost[at] == Sep
  {
    var lost := Target(destination, unnamed, None);
    var at := |destination| + Gap(destination) + 1;
    var dir := NotFoundDir(destination);
    assert !StartsWith(NotFoundFolder, [Sep]) by {
      assert NotFoundFolder[..1][0] == NotFoundFolder[0] == '.';
    }
    JoinAt(destination, NotFoundFolder, 1);
    PlainIsRelative(unnamed);
    assert lost == Join(dir, unnamed);
    assert lost[..|dir|] == dir;
    assert lost[at] == lost[..|dir|][at];
  }

  /** A copy named after a protocol never lands on the path of a copy kept in
      the not-found folder. */
  lemma TargetsApart(destination: string, named: string, unnamed: string, m: string)
    requires IsProtocol(m)
    requires Sep !in unnamed
    ensures Target(destination, named, Some(m)) != Target(destination, unnamed, None)
  {
    FoundTargetShape(destination, named, m);
    LostTargetShape(destination, unnamed);
  }

  /** A labelled match names the copy "Protocolo" followed by the nine digits
      of its identifier, e.g. "Protocolo100032290.pdf", not "100032290.pdf". */
  lemma LabelledTarget(destination: string, filename: string, spaces: string, number: string)
    requires forall k | 0 <= k < |spaces| :: IsSpace(spaces[k])
    requires IsNumbered(number)
    ensures Target(destination, filename, Some(Label + spaces + number)) ==
            Join(destination, "Protocolo" + number[..2] + number[3..9] + number[10..] + PdfSuffix)
  {
    var m := Label + spaces + number;
    assert m[..|Label|] == Label && m[|m| - 11..] == number;
    assert m[|Label|..|m| - 11] == spaces;
    StripLabelledDigits(m, number);
    var name := "Protocolo" + number[..2] + number[3..9] + number[10..] + PdfSuffix;
    assert Strip(m) + PdfSuffix == name;
    assert m != "";
  }

  /** A protocol cut in two by a page break, at any point and with any text
      around it, is still found whole when no match starts before it: the
      pages are joined with nothing in between. */
  lemma SplitIdentifier(before: string, id: string, after: string, k: nat)
    requires IsProtocol(id) && k <= |id|
    requires NoMatchBetween(before + id + after, 0, |before|)
    ensures Search(PagesText([before + id[..k], id[k..] + after])) == Some(id)
  {
    var s := before + id + after;
    var pages := [before + id[..k], id[k..] + after];
    assert PagesText(pages) == s by {
      assert pages[..1] == [before + id[..k]];
      PagesTextOne(before + id[..k]);
      assert id[..k] + id[k..] == id;
    }
    assert s[|before|..|before| + |id|] == id;
    SearchIsLeftmost(s, |before|, |before| + |id|);
  }
}
