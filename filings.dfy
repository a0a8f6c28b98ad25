/** Choosing a company's latest filing of a form and storing its rendered
    PDF (save_reports_info.py). The submissions JSON is given as its three
    parallel `recent` lists; the HTML-to-PDF renderer is an input whose
    failure is `None`; the report folder and the GridFS bucket are maps
    from file name to bytes. */
module Filings {
  import opened Base

  /** `filings.recent` of the submissions JSON: a key that is missing reads
      as an empty list. */
  datatype Recent = Recent(forms: seq<string>, accessionNumbers: seq<string>, primaryDocuments: seq<string>)

  const ArchiveRoot: string := "https://www.sec.gov/Archives/edgar/data/"
  const NotFound: string := "Request report not found."

  // ---------------------------------------------------------------------
  // get_latest_form_url
  // ---------------------------------------------------------------------

  /** `acc.replace('-', '')` */
  function RemoveDashes(s: string): string
  {
    if s == [] then []
    else RemoveDashes(s[..|s| - 1]) + if s[|s| - 1] == '-' then [] else [s[|s| - 1]]
  }

  predicate NoDash(s: string)
  {
    forall k :: 0 <= k < |s| ==> s[k] != '-'
  }

  /** How many characters of `s` are dashes. */
  function Dashes(s: string): nat
  {
    if s == [] then 0 else Dashes(s[1..]) + if s[0] == '-' then 1 else 0
  }

  lemma {:induction false} RemoveDashesAppend(a: string, b: string)
    ensures RemoveDashes(a + b) == RemoveDashes(a) + RemoveDashes(b)
    decreases |b|
  {
    if b != [] {
      var n := |b|;
      assert (a + b)[..|a + b| - 1] == a + b[..n - 1];
      RemoveDashesAppend(a, b[..n - 1]);
    } else {
      assert a + b == a;
    }
  }

  /** Removing the dashes leaves no dash, leaves a dash-free string as it
      is, and is shorter by exactly the number of dashes. Together with
      RemoveDashesAppend, which splits it over concatenation, this fixes
      the result character by character. */
  lemma {:induction false} RemoveDashesSpec(s: string)
    ensures NoDash(RemoveDashes(s))
    ensures |RemoveDashes(s)| == |s| - Dashes(s)
    ensures NoDash(s) ==> RemoveDashes(s) == s
  {
    if s != [] {
      RemoveDashesAppend([s[0]], s[1..]);
      assert [s[0]] + s[1..] == s;
      RemoveDashesSpec(s[1..]);
      assert RemoveDashes([s[0]]) == if s[0] == '-' then [] else [s[0]] by {
        assert [s[0]][..0] == [];
      }
    }
  }

  /** Removing dashes twice is removing them once. */
  lemma RemoveDashesIdempotent(s: string)
    ensures RemoveDashes(RemoveDashes(s)) == RemoveDashes(s)
  {
    RemoveDashesSpec(s);
    RemoveDashesSpec(RemoveDashes(s));
  }

  /** An accession number `a-b-c` whose three fields carry no dash becomes
      the three fields joined. */
  lemma AccessionFields(a: string, b: string, c: string)
    requires NoDash(a) && NoDash(b) && NoDash(c)
    ensures RemoveDashes(a + "-" + b + "-" + c) == a + b + c
  {
    var dash := "-";
    assert RemoveDashes(dash) == [] by {
      assert dash[..0] == [];
    }
    assert RemoveDashes(a + dash) == a by {
      RemoveDashesSpec(a);
      RemoveDashesAppend(a, dash);
    }
    assert RemoveDashes(a + dash + b) == a + b by {
      RemoveDashesSpec(b);
      RemoveDashesAppend(a + dash, b);
    }
    assert RemoveDashes(a + dash + b + dash) == a + b by {
      RemoveDashesAppend(a + dash + b, dash);
    }
    assert RemoveDashes(a + dash + b + dash + c) == a + b + c by {
      RemoveDashesSpec(c);
      RemoveDashesAppend(a + dash + b + dash, c);
    }
  }

  /** The archive URL of one filing. */
  function FilingUrl(cik: string, accession: string, primaryDocument: string): string
  {
    ArchiveRoot + cik + "/" + RemoveDashes(accession) + "/" + primaryDocument
  }

  /** How far `zip` runs: the shortest of the three lists. */
  function Zipped(recent: Recent): (n: nat)
    ensures n <= |recent.forms| && n <= |recent.accessionNumbers| && n <= |recent.primaryDocuments|
    ensures n == |recent.forms| || n == |recent.accessionNumbers| || n == |recent.primaryDocuments|
  {
    var a := |recent.forms|;
    var b := |recent.accessionNumbers|;
    var c := |recent.primaryDocuments|;
    if a <= b && a <= c then a else if b <= c then b else c
  }

  /** The first position, from `i` on and within the zipped length, whose
      form is the requested one. */
  function FirstOfForm(recent: Recent, form: string, i: nat): (r: Option<nat>)
    ensures r.Some? ==> i <= r.value < Zipped(recent) && recent.forms[r.value] == form
                        && forall j :: i <= j < r.value ==> recent.forms[j] != form
    ensures r.None? ==> forall j :: i <= j < Zipped(recent) ==> recent.forms[j] != form
    decreases Zipped(recent) - i
  {
    if i >= Zipped(recent) then None
    else if recent.forms[i] == form then Some(i)
    else FirstOfForm(recent, form, i + 1)
  }

  /** What `get_latest_form_url` returns once the submissions are fetched. */
  function LatestFormUrlOf(cik: string, recent: Recent, form: string): string
  {
    match FirstOfForm(recent, form, 0)
    case Some(i) => FilingUrl(cik, recent.accessionNumbers[i], recent.primaryDocuments[i])
    case None => NotFound
  }

  /** The loop over the zipped lists, with its early return. */
  method LatestFormUrl(cik: string, recent: Recent, form: string) returns (url: string)
    ensures url == LatestFormUrlOf(cik, recent, form)
  {
    var n := Zipped(recent);
    var i := 0;
    while i < n
      invariant i <= n
      invariant FirstOfForm(recent, form, 0) == FirstOfForm(recent, form, i)
    {
      if recent.forms[i] == form {
        return FilingUrl(cik, recent.accessionNumbers[i], recent.primaryDocuments[i]);
      }
      i := i + 1;
    }
    return NotFound;
  }

  /** The result is the not-found message exactly when no filing within the
      zipped length has the requested form. */
  lemma LatestFormUrlSpec(cik: string, recent: Recent, form: string)
    ensures LatestFormUrlOf(cik, recent, form) == NotFound <==>
              forall j :: 0 <= j < Zipped(recent) ==> recent.forms[j] != form
  {
    match FirstOfForm(recent, form, 0)
    case Some(i) =>
      UrlIsNotMessage(cik, recent.accessionNumbers[i], recent.primaryDocuments[i]);
    case None =>
  }

  /** Otherwise it is the URL of the first filing, in list order, of the
      requested form. */
  lemma LatestFormUrlFirst(cik: string, recent: Recent, form: string, i: nat)
    requires i < Zipped(recent) && recent.forms[i] == form
    requires forall j :: 0 <= j < i ==> recent.forms[j] != form
    ensures LatestFormUrlOf(cik, recent, form) ==
              FilingUrl(cik, recent.accessionNumbers[i], recent.primaryDocuments[i])
  {
    assert FirstOfForm(recent, form, 0) == Some(i);
  }

  /** A filing URL is longer than the not-found message. */
  lemma UrlIsNotMessage(cik: string, accession: string, primaryDocument: string)
    ensures FilingUrl(cik, accession, primaryDocument) != NotFound
  {
    assert |ArchiveRoot| == 40 && |NotFound| == 25;
  }

  /** The URL reads back as its parts: the archive root, the CIK, the
      accession number without any dash, and the primary document. */
  lemma FilingUrlParts(cik: string, accession: string, primaryDocument: string)
    ensures FilingUrl(cik, accession, primaryDocument)[..|ArchiveRoot|] == ArchiveRoot
    ensures FilingUrl(cik, accession, primaryDocument)[|ArchiveRoot|..|ArchiveRoot| + |cik|] == cik
    ensures var k := |ArchiveRoot| + |cik| + 1;
            FilingUrl(cik, accession, primaryDocument)[k..k + |RemoveDashes(accession)|] == RemoveDashes(accession)
    ensures var k := |ArchiveRoot| + |cik| + 1;
            NoDash(FilingUrl(cik, accession, primaryDocument)[k..k + |RemoveDashes(accession)|])
    ensures var k := |ArchiveRoot| + |cik| + 1;
            FilingUrl(cik, accession, primaryDocument)[k + |RemoveDashes(accession)| + 1..] == primaryDocument
  {
    PathParts(ArchiveRoot, cik, RemoveDashes(accession), primaryDocument);
    RemoveDashesSpec(accession);
  }

  lemma PathParts(root: string, a: string, b: string, c: string)
    ensures var u := root + a + "/" + b + "/" + c;
            var k := |root| + |a| + 1;
            u[..|root|] == root && u[|root|..|root| + |a|] == a
            && u[k..k + |b|] == b && u[k + |b| + 1..] == c
  {
  }

  // ---------------------------------------------------------------------
  // save_form and save_pdf_to_mongo
  // ---------------------------------------------------------------------

  /** `f"{ticker}_{formType}_report.pdf"`, with the form as its string
      value. */
  function FileName(ticker: string, form: string): string
  {
    ticker + "_" + form + "_report.pdf"
  }

  /** For one form the file name tells the ticker, and for one ticker it
      tells the form. */
  lemma FileNameInjective(t1: string, f1: string, t2: string, f2: string)
    requires FileName(t1, f1) == FileName(t2, f2)
    requires t1 == t2 || f1 == f2
    ensures t1 == t2 && f1 == f2
  {
    var n := FileName(t1, f1);
    assert |t1| + |f1| == |t2| + |f2|;
    if f1 == f2 {
      assert t1 == n[..|t1|] == t2;
    }
    if t1 == t2 {
      assert f1 == n[|t1| + 1..|t1| + 1 + |f1|] == f2;
    }
  }

  /** A write that happens only when no file of that name is stored yet;
      `pdf` is `None` when rendering failed and nothing is written. */
  function StoreIfAbsent(files: map<string, seq<bv8>>, name: string, pdf: Option<seq<bv8>>): map<string, seq<bv8>>
  {
    if name in files || pdf.None? then files else files[name := pdf.value]
  }

  /** A stored file is never replaced, a new one is added under exactly its
      name, and every other entry is left as it was. */
  lemma StoreIfAbsentSpec(files: map<string, seq<bv8>>, name: string, pdf: Option<seq<bv8>>)
    ensures name in files ==> StoreIfAbsent(files, name, pdf) == files
    ensures name !in files && pdf.Some? ==>
              StoreIfAbsent(files, name, pdf).Keys == files.Keys + {name}
              && StoreIfAbsent(files, name, pdf)[name] == pdf.value
    ensures forall other :: other != name ==>
              (other in StoreIfAbsent(files, name, pdf) <==> other in files)
              && (other in files ==> StoreIfAbsent(files, name, pdf)[other] == files[other])
  {
  }

  /** Once a file is stored under a name, a later save with any contents
      leaves the store as it is. */
  lemma StoreTwice(files: map<string, seq<bv8>>, name: string, first: Option<seq<bv8>>, second: Option<seq<bv8>>)
    requires name in StoreIfAbsent(files, name, first)
    ensures StoreIfAbsent(StoreIfAbsent(files, name, first), name, second) == StoreIfAbsent(files, name, first)
  {
  }

  /** A store of rendered reports: the `Reports` folder for `save_form`,
      the GridFS bucket for `save_pdf_to_mongo`. */
  class FileStore {
    var files: map<string, seq<bv8>>

    constructor (files: map<string, seq<bv8>>)
      ensures this.files == files
    {
      this.files := files;
    }

    /** `os.path.exists` / `fs.find_one({"filename": name})` */
    predicate Exists(name: string)
      reads this
    {
      name in files
    }

    /** `save_form`: skip when the file exists; a failing render is caught
        and writes nothing. */
    method SaveForm(ticker: string, form: string, rendered: Option<seq<bv8>>)
      modifies this
      ensures files == StoreIfAbsent(old(files), FileName(ticker, form), rendered)
    {
      var name := FileName(ticker, form);
      if Exists(name) {
        return;
      }
      if rendered.Some? {
        files := files[name := rendered.value];
      }
    }

    /** `save_pdf_to_mongo`: the page is rendered before the existence
        check and a failing render is not caught; then the file is skipped
        when it exists and put otherwise. */
    method SavePdfToMongo(ticker: string, form: string, rendered: Option<seq<bv8>>) returns (r: Result<bool>)
      modifies this
      ensures rendered.None? <==> r.Err?
      ensures files == StoreIfAbsent(old(files), FileName(ticker, form), rendered)
      ensures r.Ok? ==> (r.value <==> FileName(ticker, form) !in old(files))
    {
      if rendered.None? {
        return Err(RenderFailed);
      }
      var name := FileName(ticker, form);
      if Exists(name) {
        return Ok(false);
      }
      files := files[name := rendered.value];
      return Ok(true);
    }
  }

  /** The exception raised by a failing `HTML(url).write_pdf`. */
  const RenderFailed: string := "PDF rendering failed"
}
