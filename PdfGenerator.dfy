/**
 * PDF export (src/utils/pdfGenerator.ts): the captured preview is scaled to
 * the width of an A4 page, drawn on as many pages as its height needs, and
 * saved under a name derived from the resume.
 *
 * The PDF library is abstracted to the sequence of drawing calls it receives,
 * and the screenshot library to the outcome of the capture.
 */
module PdfGenerator {
  import opened Wrappers
  import opened Types
  import opened Arrays
  import opened Text

  /** `imgWidth`: the image fills the 210 mm width of an A4 page. */
  const ImgWidth: int := 210
  /** `pageHeight`: the height of an A4 page, in mm. */
  const PageHeight: int := 297

  /** The pixel size of the captured canvas. */
  datatype Canvas = Canvas(width: nat, height: nat)

  /** What the screenshot library delivers for the preview element. */
  datatype Capture = Captured(canvas: Canvas) | CaptureFailed

  /** A call on the PDF document: `addImage(data, 'PNG', x, y, w, h)` or `addPage()`. */
  datatype PdfEvent = AddImage(x: int, y: int, w: int, h: real) | AddPage

  /** The PDF document being written: the calls it received, and the name it was saved under. */
  class PdfWriter {
    var events: seq<PdfEvent>
    var savedAs: Option<string>

    constructor ()
      ensures events == [] && savedAs == None
    {
      events := [];
      savedAs := None;
    }

    method AddImage(x: int, y: int, w: int, h: real)
      modifies this
      ensures events == old(events) + [PdfEvent.AddImage(x, y, w, h)]
      ensures savedAs == old(savedAs)
    {
      events := events + [PdfEvent.AddImage(x, y, w, h)];
    }

    method AddPage()
      modifies this
      ensures events == old(events) + [PdfEvent.AddPage]
      ensures savedAs == old(savedAs)
    {
      events := events + [PdfEvent.AddPage];
    }

    method Save(filename: string)
      modifies this
      ensures savedAs == Some(filename)
      ensures events == old(events)
    {
      savedAs := Some(filename);
    }
  }

  // ---------------------------------------------------------------- scaling

  /** `imgHeight`: the canvas height scaled by the same factor that maps its width to 210 mm. */
  function ImageHeight(c: Canvas): (h: real)
    requires c.width > 0
    ensures 0.0 <= h
    ensures h * c.width as real == c.height as real * ImgWidth as real
  {
    (c.height * ImgWidth) as real / c.width as real
  }

  // ---------------------------------------------------------------- page plan

  /** The number of passes the multi-page loop makes: it runs while `h - 297 k >= 0`. */
  function DrawCount(h: real): (n: nat)
    requires 0.0 <= h
    ensures 1 <= n
    ensures ((n - 1) * PageHeight) as real <= h < (n * PageHeight) as real
  {
    (h / PageHeight as real).Floor + 1
  }

  /** The count the loop stops at is the only one with that property. */
  lemma DrawCountUnique(h: real, k: nat)
    requires 1 <= k
    requires ((k - 1) * PageHeight) as real <= h < (k * PageHeight) as real
    ensures DrawCount(h) == k
  {
  }

  /** Pass `k` of the loop: the whole image drawn `k` pages up, then a new page while height remains. */
  function Pass(h: real, k: nat): seq<PdfEvent> {
    [AddImage(0, -PageHeight * k, ImgWidth, h)]
      + (if h - ((k + 1) * PageHeight) as real > 0.0 then [AddPage] else [])
  }

  /** The first `n` passes. */
  function Passes(h: real, n: nat): seq<PdfEvent> {
    if n == 0 then [] else Passes(h, n - 1) + Pass(h, n - 1)
  }

  /** The calls `generatePDF` makes for an image `h` mm high. */
  function PagePlan(h: real): seq<PdfEvent>
    requires 0.0 <= h
  {
    if h <= PageHeight as real then [AddImage(0, 0, ImgWidth, h)] else Passes(h, DrawCount(h))
  }

  /** Lines 39-56: the single draw, or the decrement-and-recheck loop. */
  method DrawPages(pdf: PdfWriter, imgHeight: real)
    requires 0.0 <= imgHeight
    modifies pdf
    ensures pdf.events == old(pdf.events) + PagePlan(imgHeight)
    ensures pdf.savedAs == old(pdf.savedAs)
  {
    if imgHeight <= PageHeight as real {
      pdf.AddImage(0, 0, ImgWidth, imgHeight);
    } else {
      var heightLeft := imgHeight;
      var position := 0;
      ghost var k: nat := 0;
      while heightLeft >= 0.0
        invariant heightLeft == imgHeight - (k * PageHeight) as real
        invariant position == -PageHeight * k
        invariant 1 <= k ==> 0.0 <= imgHeight - ((k - 1) * PageHeight) as real
        invariant pdf.events == old(pdf.events) + Passes(imgHeight, k)
        invariant pdf.savedAs == old(pdf.savedAs)
        decreases heightLeft
      {
        pdf.AddImage(0, position, ImgWidth, imgHeight);
        heightLeft := heightLeft - PageHeight as real;
        position := position - PageHeight;
        if heightLeft > 0.0 {
          pdf.AddPage();
        }
        k := k + 1;
      }
      DrawCountUnique(imgHeight, k);
    }
  }

  // ---------------------------------------------------------------- plan properties

  predicate IsImage(e: PdfEvent) {
    e.AddImage?
  }

  /** The drawing calls of an event log, in order. */
  function Images(events: seq<PdfEvent>): seq<PdfEvent> {
    Filter(events, IsImage)
  }

  /** The number of `addPage` calls in an event log. */
  function PageBreaks(events: seq<PdfEvent>): nat {
    |events| - |Images(events)|
  }

  /** Pass `k` draws once: the full-size image at `-297 k`. */
  lemma PassImages(h: real, k: nat)
    ensures Images(Pass(h, k)) == [AddImage(0, -PageHeight * k, ImgWidth, h)]
  {
    var rest := if h - ((k + 1) * PageHeight) as real > 0.0 then [AddPage] else [];
    FilterAppend([AddImage(0, -PageHeight * k, ImgWidth, h)], rest, IsImage);
  }

  /** The `k`-th of `n` passes draws the same full-size image at `-297 k`. */
  lemma {:induction false} PassesImages(h: real, n: nat)
    ensures |Images(Passes(h, n))| == n
    ensures forall k :: 0 <= k < n ==> Images(Passes(h, n))[k] == AddImage(0, -PageHeight * k, ImgWidth, h)
  {
    if n > 0 {
      PassesImages(h, n - 1);
      FilterAppend(Passes(h, n - 1), Pass(h, n - 1), IsImage);
      PassImages(h, n - 1);
    }
  }

  /** The number of pages an image `h` mm high fills: the least `m` with `h <= 297 m`. */
  function PagesNeeded(h: real): (m: nat)
    requires 0.0 < h
    ensures 1 <= m
    ensures ((m - 1) * PageHeight) as real < h <= (m * PageHeight) as real
  {
    var f := (h / PageHeight as real).Floor;
    if (f * PageHeight) as real == h then f else f + 1
  }

  /** After `n` passes, a page was added for each `j <= n` with `297 j < h`. */
  lemma {:induction false} PassesPageBreaks(h: real, n: nat)
    requires 0.0 < h
    ensures |Passes(h, n)| - |Images(Passes(h, n))| == if n < PagesNeeded(h) then n else PagesNeeded(h) - 1
  {
    if n > 0 {
      PassesPageBreaks(h, n - 1);
      var m := PagesNeeded(h);
      FilterAppend(Passes(h, n - 1), Pass(h, n - 1), IsImage);
      PassImages(h, n - 1);
      var brk := h - (n * PageHeight) as real > 0.0;
      if n < m {
        assert (n * PageHeight) as real <= ((m - 1) * PageHeight) as real;
        assert brk;
      } else {
        assert (m * PageHeight) as real <= (n * PageHeight) as real;
        assert !brk;
      }
    }
  }

  /**
   * Every draw uses the same 210 mm wide, full-height image; draw `k` is at
   * `y = -297 k`; an image of at most 297 mm is drawn once at the top of the
   * only page, a taller one `floor(h / 297) + 1` times.
   */
  lemma PlanImages(h: real)
    requires 0.0 <= h
    ensures h <= PageHeight as real ==> Images(PagePlan(h)) == [AddImage(0, 0, ImgWidth, h)]
    ensures PageHeight as real < h ==> |Images(PagePlan(h))| == DrawCount(h)
    ensures PageHeight as real < h ==> forall k :: 0 <= k < DrawCount(h) ==>
      Images(PagePlan(h))[k] == AddImage(0, -PageHeight * k, ImgWidth, h)
  {
    if h <= PageHeight as real {
      assert Images(PagePlan(h)) == [AddImage(0, 0, ImgWidth, h)];
    } else {
      PassesImages(h, DrawCount(h));
    }
  }

  /**
   * The document has exactly as many pages as the image needs: one, plus one
   * per `addPage`, is the least `m` with `h <= 297 m`. On an exact multiple of
   * 297 mm no blank page follows.
   */
  lemma PlanPageCount(h: real)
    requires 0.0 < h
    ensures 1 + PageBreaks(PagePlan(h)) == PagesNeeded(h)
  {
    if h <= PageHeight as real {
      assert Images(PagePlan(h)) == [AddImage(0, 0, ImgWidth, h)];
    } else {
      PassesPageBreaks(h, DrawCount(h));
      assert PagesNeeded(h) <= DrawCount(h);
    }
  }

  /** The last call is a draw, never an `addPage`: the extra final draw lands on the last page. */
  lemma PlanEndsWithDraw(h: real)
    requires 0.0 <= h
    ensures PagePlan(h) != [] && PagePlan(h)[|PagePlan(h)| - 1].AddImage?
  {
    if h > PageHeight as real {
      var n := DrawCount(h);
      assert Passes(h, n) == Passes(h, n - 1) + Pass(h, n - 1);
      assert !(h - (n * PageHeight) as real > 0.0);
    }
  }

  /**
   * The `<=` of the single-page test matters only at exactly 297 mm: below it
   * the loop alone would also draw once, at 297 mm it would draw twice.
   */
  lemma SinglePageBoundary(h: real)
    requires 0.0 <= h
    ensures h < PageHeight as real ==> Passes(h, DrawCount(h)) == PagePlan(h)
    ensures PagePlan(PageHeight as real) == [AddImage(0, 0, ImgWidth, PageHeight as real)]
    ensures |Images(Passes(PageHeight as real, DrawCount(PageHeight as real)))| == 2
  {
    if h < PageHeight as real {
      DrawCountUnique(h, 1);
      assert Passes(h, 1) == Passes(h, 0) + Pass(h, 0);
    }
    DrawCountUnique(PageHeight as real, 2);
    PassesImages(PageHeight as real, 2);
  }

  /** An image of exactly two pages: three draws, one `addPage`, no blank third page. */
  lemma ExactTwoPages()
    ensures PagePlan(594.0) ==
      [AddImage(0, 0, 210, 594.0), AddPage, AddImage(0, -297, 210, 594.0), AddImage(0, -594, 210, 594.0)]
  {
    DrawCountUnique(594.0, 3);
    assert Passes(594.0, 1) == Pass(594.0, 0);
  }

  // ---------------------------------------------------------------- filename

  /** The template string: `${fullName || 'Resume'}_${title}.pdf`. Only the empty name falls back. */
  function BaseName(fullName: string, title: string): string {
    (if fullName == "" then "Resume" else fullName) + "_" + title + ".pdf"
  }

  /** `.replace(/[^a-z0-9]/gi, '_')`. */
  function ReplaceNonAlphanumeric(s: string): (r: string)
    ensures |r| == |s|
    ensures forall i :: 0 <= i < |s| ==> r[i] == if IsAsciiAlphanumeric(s[i]) then s[i] else '_'
  {
    seq(|s|, i requires 0 <= i < |s| => if IsAsciiAlphanumeric(s[i]) then s[i] else '_')
  }

  /**
   * `.replace(/_{2,}/g, '_')`: every run of two or more underscores becomes
   * one, which keeps the last underscore of each run.
   */
  function CollapseUnderscores(s: string): string {
    if |s| < 2 then s
    else if s[0] == '_' && s[1] == '_' then CollapseUnderscores(s[1..])
    else [s[0]] + CollapseUnderscores(s[1..])
  }

  /** Any character but `_`. */
  predicate NotUnderscore(c: char) {
    c != '_'
  }

  predicate NoDoubleUnderscore(s: string) {
    forall i :: 0 <= i < |s| - 1 ==> !(s[i] == '_' && s[i + 1] == '_')
  }

  /** `[a-z0-9_]`. */
  predicate IsFilenameChar(c: char) {
    'a' <= c <= 'z' || '0' <= c <= '9' || c == '_'
  }

  /** The whole pipeline applied to the template string. */
  function Sanitize(s: string): string {
    ToLower(CollapseUnderscores(ReplaceNonAlphanumeric(s)))
  }

  /** The name the PDF is saved under. */
  function Filename(resume: Resume): string {
    Sanitize(BaseName(resume.personalInfo.fullName, resume.title))
  }

  /** Collapsing keeps the first character, introduces nothing, and leaves no two underscores in a row. */
  lemma {:induction false} CollapseFacts(s: string)
    ensures var r := CollapseUnderscores(s);
      && |r| <= |s|
      && (s != [] ==> r != [] && r[0] == s[0])
      && (forall c :: c in r ==> c in s)
      && NoDoubleUnderscore(r)
  {
    var r := CollapseUnderscores(s);
    if |s| >= 2 {
      CollapseFacts(s[1..]);
      var t := CollapseUnderscores(s[1..]);
      assert forall c :: c in s[1..] ==> c in s;
      if !(s[0] == '_' && s[1] == '_') {
        assert r == [s[0]] + t;
        assert t[0] == s[1];
        forall i | 0 <= i < |r| - 1 ensures !(r[i] == '_' && r[i + 1] == '_') {
          if i > 0 { assert r[i] == t[i - 1] && r[i + 1] == t[i]; }
        }
      }
    }
  }

  /** Collapsing drops only underscores: every other character survives, in order. */
  lemma {:induction false} CollapseKeepsOthers(s: string)
    ensures Filter(CollapseUnderscores(s), NotUnderscore) == Filter(s, NotUnderscore)
  {
    if |s| >= 2 {
      CollapseKeepsOthers(s[1..]);
      var t := CollapseUnderscores(s[1..]);
      if !(s[0] == '_' && s[1] == '_') {
        assert ([s[0]] + t)[1..] == t;
      }
    }
  }

  /** A string without two underscores in a row is left as it is. */
  lemma {:induction false} CollapseNoDoubles(s: string)
    requires NoDoubleUnderscore(s)
    ensures CollapseUnderscores(s) == s
  {
    if |s| >= 2 {
      assert NoDoubleUnderscore(s[1..]) by {
        forall i | 0 <= i < |s[1..]| - 1 ensures !(s[1..][i] == '_' && s[1..][i + 1] == '_') {
          assert s[1..][i] == s[i + 1] && s[1..][i + 1] == s[i + 2];
        }
      }
      CollapseNoDoubles(s[1..]);
      assert !(s[0] == '_' && s[1] == '_');
      assert s == [s[0]] + s[1..];
    }
  }

  /** The filename consists of `[a-z0-9_]` only and never has two underscores in a row. */
  lemma SanitizedShape(s: string)
    ensures forall c :: c in Sanitize(s) ==> IsFilenameChar(c)
    ensures NoDoubleUnderscore(Sanitize(s))
  {
    var a := ReplaceNonAlphanumeric(s);
    var b := CollapseUnderscores(a);
    CollapseFacts(a);
    assert forall c :: c in a ==> IsAsciiAlphanumeric(c) || c == '_';
    var r := ToLower(b);
    forall c | c in r ensures IsFilenameChar(c) {
      var i :| 0 <= i < |r| && r[i] == c;
      assert b[i] in b;
    }
    forall i | 0 <= i < |r| - 1 ensures !(r[i] == '_' && r[i + 1] == '_') {
      assert r[i] == LowerChar(b[i]) && r[i + 1] == LowerChar(b[i + 1]);
    }
  }

  /** Sanitizing a filename again changes nothing. */
  lemma SanitizeIdempotent(s: string)
    ensures Sanitize(Sanitize(s)) == Sanitize(s)
  {
    var f := Sanitize(s);
    SanitizedShape(s);
    assert forall i :: 0 <= i < |f| ==> f[i] in f;
    assert ReplaceNonAlphanumeric(f) == f;
    CollapseNoDoubles(f);
  }

  /** Collapsing text followed by `_pdf` still ends in `_pdf`. */
  lemma {:induction false} CollapseKeepsPdfSuffix(u: string)
    ensures var r := CollapseUnderscores(u + "_pdf");
      |r| >= 4 && r[|r| - 4..] == "_pdf"
  {
    var s := u + "_pdf";
    if u == [] {
      assert s == "_pdf";
      CollapsePdfEnding();
    } else {
      assert s[1..] == u[1..] + "_pdf";
      CollapseKeepsPdfSuffix(u[1..]);
      var t := CollapseUnderscores(s[1..]);
      if !(s[0] == '_' && s[1] == '_') {
        assert CollapseUnderscores(s) == [s[0]] + t;
        assert ([s[0]] + t)[|t| + 1 - 4..] == t[|t| - 4..];
      }
    }
  }

  /** A character not followed by a second underscore survives collapsing. */
  lemma CollapseCons(c: char, t: string)
    requires !(c == '_' && t != [] && t[0] == '_')
    ensures CollapseUnderscores([c] + t) == [c] + CollapseUnderscores(t)
  {
    if t != [] {
      assert ([c] + t)[1..] == t;
    }
  }

  /** Of two leading underscores, collapsing drops the first. */
  lemma CollapsePair(t: string)
    ensures CollapseUnderscores("__" + t) == CollapseUnderscores("_" + t)
  {
    assert ("__" + t)[1..] == "_" + t;
  }

  /**
   * Dropping one underscore of a pair anywhere before collapsing changes
   * nothing. With `CollapseNoDoubles` this fixes the result of collapsing
   * every string: each run of underscores leaves exactly one.
   */
  lemma {:induction false} CollapseDropsDouble(a: string, b: string)
    ensures CollapseUnderscores(a + "__" + b) == CollapseUnderscores(a + "_" + b)
  {
    if a == [] {
      assert a + "__" + b == "__" + b;
      assert a + "_" + b == "_" + b;
      CollapsePair(b);
    } else {
      var x := a + "__" + b;
      var y := a + "_" + b;
      assert x[1..] == a[1..] + "__" + b;
      assert y[1..] == a[1..] + "_" + b;
      assert x[0] == y[0] && x[1] == y[1];
      CollapseDropsDouble(a[1..], b);
    }
  }

  /**
   * A prefix without two underscores in a row and not ending in one passes
   * through collapsing unchanged.
   */
  lemma {:induction false} CollapsePrefix(w: string, t: string)
    requires w != [] && w[|w| - 1] != '_'
    requires NoDoubleUnderscore(w)
    ensures CollapseUnderscores(w + t) == w + CollapseUnderscores(t)
  {
    assert w + t == [w[0]] + (w[1..] + t);
    if |w| == 1 {
      assert w[1..] + t == t;
      CollapseCons(w[0], t);
    } else {
      assert w[1..] != [] && (w[1..] + t)[0] == w[1];
      CollapseCons(w[0], w[1..] + t);
      assert NoDoubleUnderscore(w[1..]) by {
        forall i | 0 <= i < |w[1..]| - 1 ensures !(w[1..][i] == '_' && w[1..][i + 1] == '_') {
          assert w[1..][i] == w[i + 1] && w[1..][i + 1] == w[i + 2];
        }
      }
      CollapsePrefix(w[1..], t);
      assert [w[0]] + (w[1..] + CollapseUnderscores(t)) == w + CollapseUnderscores(t);
    }
  }

  /** Replacing works character by character, so it distributes over concatenation. */
  lemma ReplaceAppend(a: string, b: string)
    ensures ReplaceNonAlphanumeric(a + b) == ReplaceNonAlphanumeric(a) + ReplaceNonAlphanumeric(b)
  {
  }

  /** Exactly the characters in `[A-Za-z0-9]` come through replacing as something other than `_`. */
  lemma {:induction false} ReplaceKeepsAlphanumerics(s: string)
    ensures Filter(ReplaceNonAlphanumeric(s), NotUnderscore) == Filter(s, IsAsciiAlphanumeric)
  {
    if s != [] {
      var r := ReplaceNonAlphanumeric(s);
      assert r[1..] == ReplaceNonAlphanumeric(s[1..]);
      ReplaceKeepsAlphanumerics(s[1..]);
    }
  }

  /** Lower-casing maps `_` and only `_` to `_`, so it commutes with dropping underscores. */
  lemma {:induction false} LowerKeepsOthers(s: string)
    ensures Filter(ToLower(s), NotUnderscore) == ToLower(Filter(s, NotUnderscore))
  {
    if s != [] {
      var c, t := s[0], s[1..];
      assert s == [c] + t;
      LowerKeepsOthers(t);
      LowerAppend([c], t);
      var lc := ToLower([c]);
      assert lc == [LowerChar(c)];
      FilterAppend(lc, ToLower(t), NotUnderscore);
      FilterAppend([c], t, NotUnderscore);
      LowerAppend(Filter([c], NotUnderscore), Filter(t, NotUnderscore));
      assert Filter(lc, NotUnderscore) == ToLower(Filter([c], NotUnderscore));
    }
  }

  /** Lower-casing works character by character, so it commutes with taking a slice. */
  lemma LowerSlice(s: string, i: nat, j: nat)
    requires i <= j <= |s|
    ensures ToLower(s)[i..j] == ToLower(s[i..j])
  {
  }

  /** The `.` of `.pdf` is replaced like any other character, so every name ends in `_pdf`. */
  lemma FilenameEndsInPdf(resume: Resume)
    ensures |Filename(resume)| >= 4 && Filename(resume)[|Filename(resume)| - 4..] == "_pdf"
  {
    var u := (if resume.personalInfo.fullName == "" then "Resume" else resume.personalInfo.fullName) + "_" + resume.title;
    assert BaseName(resume.personalInfo.fullName, resume.title) == u + ".pdf";
    ReplaceAppend(u, ".pdf");
    PdfEndingReplaced();
    var ru := ReplaceNonAlphanumeric(u);
    CollapseKeepsPdfSuffix(ru);
    var b := CollapseUnderscores(ru + "_pdf");
    LowerSlice(b, |b| - 4, |b|);
    PdfEndingLowered();
  }

  /**
   * An empty full name is replaced by `Resume`: the name is `resume`
   * followed by the sanitised `_<title>.pdf`, which starts with `_`.
   */
  lemma EmptyNameFallsBack(resume: Resume)
    requires resume.personalInfo.fullName == ""
    ensures Filename(resume) == "resume" + Sanitize("_" + resume.title + ".pdf")
    ensures |Filename(resume)| >= 7 && Filename(resume)[..7] == "resume_"
  {
    var t := "_" + resume.title + ".pdf";
    assert BaseName(resume.personalInfo.fullName, resume.title) == "Resume" + t;
    ReplaceAppend("Resume", t);
    ResumeReplaced();
    var w := ReplaceNonAlphanumeric(t);
    assert NoDoubleUnderscore("Resume");
    CollapsePrefix("Resume", w);
    var b := CollapseUnderscores(w);
    LowerAppend("Resume", b);
    ResumeLowered();
    CollapseFacts(w);
    assert Sanitize(t) == ToLower(b) && ToLower(b)[0] == '_';
  }

  /** Filtering four pieces put together. */
  lemma FilterFour(a: string, b: string, c: string, d: string, keep: char -> bool)
    ensures Filter(a + b + c + d, keep) == Filter(a, keep) + Filter(b, keep) + Filter(c, keep) + Filter(d, keep)
  {
    FilterAppend(a + b + c, d, keep);
    FilterAppend(a + b, c, keep);
    FilterAppend(a, b, keep);
  }

  /** The template's letters and digits: those of the shown name, then of the title, then `pdf`. */
  lemma TemplateLetters(fullName: string, title: string)
    ensures var shown := if fullName == "" then "Resume" else fullName;
      Filter(BaseName(fullName, title), IsAsciiAlphanumeric) ==
        Filter(shown, IsAsciiAlphanumeric) + Filter(title, IsAsciiAlphanumeric) + "pdf"
  {
    var shown := if fullName == "" then "Resume" else fullName;
    FilterFour(shown, "_", title, ".pdf", IsAsciiAlphanumeric);
    SeparatorLetters();
    PdfEndingLetters();
  }

  /**
   * Nothing of the name and title is lost but their punctuation: apart from
   * its underscores, the filename is the letters and digits of the shown name,
   * of the title and `pdf`, in that order, lower-cased.
   */
  lemma FilenameLetters(resume: Resume)
    ensures var shown := if resume.personalInfo.fullName == "" then "Resume" else resume.personalInfo.fullName;
      Filter(Filename(resume), NotUnderscore) ==
        ToLower(Filter(shown, IsAsciiAlphanumeric) + Filter(resume.title, IsAsciiAlphanumeric) + "pdf")
  {
    var base := BaseName(resume.personalInfo.fullName, resume.title);
    var a := ReplaceNonAlphanumeric(base);
    var b := CollapseUnderscores(a);
    CollapseKeepsOthers(a);
    LowerKeepsOthers(b);
    ReplaceKeepsAlphanumerics(base);
    TemplateLetters(resume.personalInfo.fullName, resume.title);
  }

  /**
   * Only the empty name falls back: a non-empty name starting with a
   * character outside `[A-Za-z0-9]`, such as a blank, gives a name starting
   * with `_`, never with `resume_`.
   */
  lemma NonEmptyNameKept(resume: Resume)
    requires resume.personalInfo.fullName != ""
    requires !IsAsciiAlphanumeric(resume.personalInfo.fullName[0])
    ensures Filename(resume) != [] && Filename(resume)[0] == '_'
  {
    var base := BaseName(resume.personalInfo.fullName, resume.title);
    assert base[0] == resume.personalInfo.fullName[0];
    var a := ReplaceNonAlphanumeric(base);
    CollapseFacts(a);
    assert ToLower(CollapseUnderscores(a))[0] == LowerChar(CollapseUnderscores(a)[0]);
  }

  // ---------------------------------------------------------------- filename: fixed strings

  // Each stage of the pipeline evaluated on a fixed string, one stage per
  // lemma, and the two worked examples built from them.

  lemma PdfEndingReplaced()
    ensures ReplaceNonAlphanumeric(".pdf") == "_pdf"
  {
    var r := ReplaceNonAlphanumeric(".pdf");
    assert r[0] == '_' && r[1] == 'p' && r[2] == 'd' && r[3] == 'f';
  }

  lemma PdfEndingLowered()
    ensures ToLower("_pdf") == "_pdf"
  {
    var l := ToLower("_pdf");
    assert l[0] == '_' && l[1] == 'p' && l[2] == 'd' && l[3] == 'f';
  }

  lemma ResumeReplaced()
    ensures ReplaceNonAlphanumeric("Resume") == "Resume"
  {
    var r := ReplaceNonAlphanumeric("Resume");
    forall i | 0 <= i < 6 ensures r[i] == "Resume"[i] { }
  }

  lemma ResumeLowered()
    ensures ToLower("Resume") == "resume"
  {
    var l := ToLower("Resume");
    forall i | 0 <= i < 6 ensures l[i] == "resume"[i] { }
  }

  lemma SeparatorLetters()
    ensures Filter("_", IsAsciiAlphanumeric) == []
  {
  }

  lemma PdfEndingLetters()
    ensures Filter(".pdf", IsAsciiAlphanumeric) == "pdf"
  {
    assert ".pdf"[1..] == "pdf";
    assert "pdf"[1..] == "df";
    assert "df"[1..] == "f";
    assert "f"[1..] == [];
  }

  lemma SpacesReplaced()
    ensures ReplaceNonAlphanumeric("Jo Doe_Dev CV.pdf") == "Jo_Doe_Dev_CV_pdf"
  {
    var r := ReplaceNonAlphanumeric("Jo Doe_Dev CV.pdf");
    forall i | 0 <= i < 17 ensures r[i] == "Jo_Doe_Dev_CV_pdf"[i] { }
  }

  lemma SpacesCollapsed()
    ensures CollapseUnderscores("Jo_Doe_Dev_CV_pdf") == "Jo_Doe_Dev_CV_pdf"
  {
    assert NoDoubleUnderscore("Jo_Doe_Dev_CV_pdf");
    CollapseNoDoubles("Jo_Doe_Dev_CV_pdf");
  }

  lemma SpacesLowered()
    ensures ToLower("Jo_Doe_Dev_CV_pdf") == "jo_doe_dev_cv_pdf"
  {
    var l := ToLower("Jo_Doe_Dev_CV_pdf");
    forall i | 0 <= i < 17 ensures l[i] == "jo_doe_dev_cv_pdf"[i] { }
  }

  /** A name and title with spaces: each space becomes one underscore. */
  lemma FilenameExampleSpaces(resume: Resume)
    requires resume.personalInfo.fullName == "Jo Doe" && resume.title == "Dev CV"
    ensures Filename(resume) == "jo_doe_dev_cv_pdf"
  {
    assert BaseName(resume.personalInfo.fullName, resume.title) == "Jo Doe_Dev CV.pdf";
    SpacesReplaced();
    SpacesCollapsed();
    SpacesLowered();
  }

  lemma FallbackReplaced()
    ensures ReplaceNonAlphanumeric("Resume_CV!!.pdf") == "Resume_CV___pdf"
  {
    var r := ReplaceNonAlphanumeric("Resume_CV!!.pdf");
    forall i | 0 <= i < 15 ensures r[i] == "Resume_CV___pdf"[i] { }
  }

  /** A run of three underscores collapses to one. */
  lemma CollapseTripleRun()
    ensures CollapseUnderscores("___pdf") == "_pdf"
  {
    CollapsePair("_pdf");
    CollapsePair("pdf");
    CollapsePdfEnding();
  }

  lemma FallbackWords()
    ensures NoDoubleUnderscore("Resume_CV")
  {
  }

  lemma FallbackCollapsed(s: string)
    requires s == "Resume_CV" + "___pdf"
    ensures CollapseUnderscores(s) == "Resume_CV_pdf"
  {
    FallbackWords();
    CollapsePrefix("Resume_CV", "___pdf");
    CollapseTripleRun();
  }

  lemma FallbackLowered()
    ensures ToLower("Resume_CV_pdf") == "resume_cv_pdf"
  {
    var l := ToLower("Resume_CV_pdf");
    forall i | 0 <= i < 13 ensures l[i] == "resume_cv_pdf"[i] { }
  }

  /** An empty name falls back to `Resume`; the run `!!.` collapses to one underscore. */
  lemma FilenameExampleFallback(resume: Resume)
    requires resume.personalInfo.fullName == "" && resume.title == "CV!!"
    ensures Filename(resume) == "resume_cv_pdf"
  {
    assert BaseName(resume.personalInfo.fullName, resume.title) == "Resume_CV!!.pdf";
    FallbackReplaced();
    FallbackCollapsed("Resume_CV___pdf");
    FallbackLowered();
  }

  /** The ending itself has no run to collapse. */
  lemma CollapsePdfEnding()
    ensures CollapseUnderscores("_pdf") == "_pdf"
  {
    CollapseNoDoubles("_pdf");
  }

  // ---------------------------------------------------------------- export

  /** The outcome of a successful export: the calls made on the document and the name it was saved under. */
  datatype Export = Export(events: seq<PdfEvent>, filename: string)

  /** The only error the export reports, whatever failed underneath. */
  const ExportFailed: string := "Failed to generate PDF"

  /**
   * `generatePDF`: a missing preview element or a failed capture ends in
   * `ExportFailed` before anything is saved; otherwise the page plan is drawn
   * and the document saved under `Filename(resume)`.
   *
   * An empty 0 x 0 canvas scales to `0 / 0`, which is NaN: both `imgHeight <= 297`
   * and `heightLeft >= 0` are false, so nothing is drawn and the empty document
   * is saved. A canvas of width 0 and some height scales to an infinite height,
   * on which the loop never ends; callers cannot pass one.
   */
  method GeneratePdf(resume: Resume, previewFound: bool, capture: Capture) returns (r: Result<Export, string>)
    requires previewFound && capture.Captured? ==> capture.canvas.width > 0 || capture.canvas.height == 0
    ensures !previewFound || capture.CaptureFailed? ==> r == Failure(ExportFailed)
    ensures previewFound && capture.Captured? && capture.canvas.width > 0 ==>
      r == Success(Export(PagePlan(ImageHeight(capture.canvas)), Filename(resume)))
    ensures previewFound && capture.Captured? && capture.canvas.width == 0 ==>
      r == Success(Export([], Filename(resume)))
  {
    if !previewFound {
      return Failure(ExportFailed);
    }
    if capture.CaptureFailed? {
      return Failure(ExportFailed);
    }
    var pdf := new PdfWriter();
    if capture.canvas.width > 0 {
      var imgHeight := ImageHeight(capture.canvas);
      DrawPages(pdf, imgHeight);
      assert pdf.events == PagePlan(imgHeight);
    }
    var filename := Filename(resume);
    pdf.Save(filename);
    r := Success(Export(pdf.events, pdf.savedAs.value));
  }
}
