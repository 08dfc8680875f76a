/** The decision rules of `crawler/engine.py`: URL templating, the MyResult "Finish"
    enrichment, what one crawl unit returns, lane routing, and the calls the engine makes on
    the scheduler. The stateful engine is in module `Engine`. */
module EngineRules {
  import opened Wrappers
  import opened Text
  import opened Lists
  import opened Shapes
  import opened Fetcher
  import Urls
  import FileUtils

  // ---------------------------------------------------------------- URL templating

  /** `nameorbibno.zfill(6) if nameorbibno.isdigit() else nameorbibno`. */
  function Bib6(id: string): (r: string)
    ensures IsDigits(id) ==> |r| == if |id| < 6 then 6 else |id|
    ensures IsDigits(id) ==> EndsWith(r, id) && forall k :: 0 <= k < |r| - |id| ==> r[k] == '0'
    ensures !IsDigits(id) ==> r == id
  {
    if IsDigits(id) then ZFill(id, 6) else id
  }

  /** `_build_url`: every `{nameorbibno}` becomes the identifier, every `{usedata}` the event code
      ("" when there is none), and then, when present, every `{bib_spct6}` the padded bib. */
  function BuildUrl(template: string, id: string, usedata: string): string
  {
    var u := Replace(Replace(template, "{nameorbibno}", id), "{usedata}", usedata);
    if Contains(u, "{bib_spct6}") then Replace(u, "{bib_spct6}", Bib6(id)) else u
  }

  /** A padded bib keeps its value: padding only adds leading zeros. */
  lemma Bib6KeepsValue(id: string)
    requires IsDigits(id)
    ensures IsDigits(Bib6(id)) && DigitsValue(Bib6(id)) == DigitsValue(id)
  {
    ZFillDigitsIdempotent(id, 6);
    ZFillValue(id);
  }

  lemma ZFillValue(id: string)
    requires IsDigits(id)
    ensures DigitsValue(ZFill(id, 6)) == DigitsValue(id)
  {
    if |id| < 6 {
      ZerosValue(6 - |id|, id);
    }
  }

  lemma {:induction false} ZerosValue(n: nat, d: string)
    requires forall i :: 0 <= i < |d| ==> IsDigit(d[i])
    ensures DigitsValue(Zeros(n) + d) == DigitsValue(d)
  {
    if n > 0 {
      assert Zeros(n) == Zeros(n - 1) + "0";
      assert Zeros(n) + d == Zeros(n - 1) + ("0" + d);
      ZerosValue(n - 1, "0" + d);
      DigitsValueLeadingZero(d);
      assert DigitsValue(Zeros(n - 1) + ("0" + d)) == DigitsValue("0" + d);
    } else {
      assert Zeros(n) + d == d;
    }
  }

  /** Without '{' a string holds no placeholder. */
  lemma {:induction false} NoBraceNoPlaceholder(s: string, p: string)
    requires p != [] && p[0] == '{' && '{' !in s
    ensures !Contains(s, p)
    decreases |s|
  {
    if s != [] {
      assert s[0] != '{';
      NoBraceNoPlaceholder(s[1..], p);
    }
  }

  /** When '{' can only be the first character, a placeholder occurs only at the start. */
  lemma BraceOnlyAtStart(s: string, p: string)
    requires p != [] && p[0] == '{' && s != [] && '{' !in s[1..]
    ensures Contains(s, p) <==> StartsWith(s, p)
  {
  }

  /** `replace` passes over a prefix free of the pattern's first character. */
  lemma {:induction false} ReplacePrefixFree(b: string, x: string, p: string, r: string)
    requires p != [] && p[0] !in b
    ensures Replace(b + x, p, r) == b + Replace(x, p, r)
    decreases |b|
  {
    if b != [] {
      var s := b + x;
      if |s| >= |p| {
        assert s[0] == b[0];
        assert s[..|p|] != p;
        assert s[1..] == b[1..] + x;
        ReplacePrefixFree(b[1..], x, p, r);
        assert [b[0]] + b[1..] == b;
      } else {
        assert |x| < |p|;
      }
    } else {
      assert b + x == x;
    }
  }

  /** Replacing a placeholder that occurs once, after `a` and before `b`, both free of '{'. */
  lemma ReplaceOnce(a: string, p: string, b: string, r: string)
    requires p != [] && p[0] == '{' && '{' !in a && '{' !in b
    ensures Replace(a + p + b, p, r) == a + r + b
  {
    assert a + p + b == a + (p + b);
    ReplacePrefixFree(a, p + b, p, r);
    assert (p + b)[..|p|] == p && (p + b)[|p|..] == b;
    NoBraceNoPlaceholder(b, p);
    ReplaceAbsent(b, p, r);
  }

  /** A placeholder starting a string whose other characters hold no '{' is untouched by the
      replacement of a different placeholder. */
  lemma OtherPlaceholderKept(q: string, c: string, p: string, r: string)
    requires p != [] && p[0] == '{' && |q| >= 2 && |p| >= 2 && q[1] != p[1]
    requires '{' !in q[1..] && '{' !in c
    ensures Replace(q + c, p, r) == q + c
  {
    var s := q + c;
    assert s[1..] == q[1..] + c;
    assert '{' !in s[1..];
    BraceOnlyAtStart(s, p);
    assert s[1] == q[1];
    ReplaceAbsent(s, p, r);
  }

  /** The identifier is substituted, and nothing else changes. */
  lemma BuildUrlIdentifier(a: string, b: string, id: string, usedata: string)
    requires '{' !in a && '{' !in b && '{' !in id
    ensures BuildUrl(a + "{nameorbibno}" + b, id, usedata) == a + id + b
  {
    ReplaceOnce(a, "{nameorbibno}", b, id);
    assert '{' !in a + id + b;
    NoBraceNoPlaceholder(a + id + b, "{usedata}");
    ReplaceAbsent(a + id + b, "{usedata}", usedata);
    NoBraceNoPlaceholder(a + id + b, "{bib_spct6}");
  }

  /** The identifier and the event code are both substituted. */
  lemma BuildUrlIdentifierAndEvent(a: string, b: string, c: string, id: string, usedata: string)
    requires '{' !in a && '{' !in b && '{' !in c && '{' !in id && '{' !in usedata
    ensures Replace(Replace(a + "{nameorbibno}" + b + "{usedata}" + c, "{nameorbibno}", id), "{usedata}", usedata) == a + id + b + usedata + c
    ensures BuildUrl(a + "{nameorbibno}" + b + "{usedata}" + c, id, usedata) == a + id + b + usedata + c
  {
    IdentifierReplaced(a, b, c, id);
    var u := "{usedata}";
    assert '{' !in a + id + b;
    ReplaceOnce(a + id + b, u, c, usedata);
    assert '{' !in a + id + b + usedata + c;
    NoBraceNoPlaceholder(a + id + b + usedata + c, "{bib_spct6}");
  }

  /** Substituting the identifier leaves the event placeholder in place. */
  lemma IdentifierReplaced(a: string, b: string, c: string, id: string)
    requires '{' !in a && '{' !in b && '{' !in c && '{' !in id
    ensures Replace(a + "{nameorbibno}" + b + "{usedata}" + c, "{nameorbibno}", id) == (a + id + b) + "{usedata}" + c
  {
    var n := "{nameorbibno}";
    var u := "{usedata}";
    assert n[0] == '{' && u[0] == '{' && u[1] != n[1] && '{' !in u[1..];
    OneOfTwoPlaceholders(a, b, c, id, n, u);
  }

  /** The first of two distinct placeholders, each occurring once, is substituted. */
  lemma OneOfTwoPlaceholders(a: string, b: string, c: string, id: string, n: string, u: string)
    requires '{' !in a && '{' !in b && '{' !in c
    requires |n| >= 2 && |u| >= 2 && n[0] == '{' && u[0] == '{' && u[1] != n[1] && '{' !in u[1..]
    ensures Replace(a + n + b + u + c, n, id) == (a + id + b) + u + c
  {
    var rest := b + (u + c);
    calc {
      Replace(a + n + b + u + c, n, id);
    == { assert a + n + b + u + c == a + (n + rest); }
      Replace(a + (n + rest), n, id);
    == { ReplacePrefixFree(a, n + rest, n, id); }
      a + Replace(n + rest, n, id);
    == { PlaceholderAtFront(n, rest, id); }
      a + (id + Replace(rest, n, id));
    == { ReplacePrefixFree(b, u + c, n, id); OtherPlaceholderKept(u, c, n, id); }
      a + (id + (b + (u + c)));
    == { assert a + (id + (b + (u + c))) == (a + id + b) + u + c; }
      (a + id + b) + u + c;
    }
  }

  lemma PlaceholderAtFront(n: string, rest: string, id: string)
    requires n != []
    ensures Replace(n + rest, n, id) == id + Replace(rest, n, id)
  {
    assert (n + rest)[..|n|] == n && (n + rest)[|n|..] == rest;
    MatchStep(n + rest, n, id);
  }

  /** `{bib_spct6}` becomes the zero-padded bib, and the other placeholders are not involved. */
  lemma BuildUrlSpct(a: string, b: string, id: string, usedata: string)
    requires '{' !in a && '{' !in b
    ensures BuildUrl(a + "{bib_spct6}" + b, id, usedata) == a + Bib6(id) + b
  {
    var sp := "{bib_spct6}";
    var s := a + sp + b;
    assert s == a + (sp + b);
    ReplacePrefixFree(a, sp + b, "{nameorbibno}", id);
    OtherPlaceholderKept(sp, b, "{nameorbibno}", id);
    ReplacePrefixFree(a, sp + b, "{usedata}", usedata);
    OtherPlaceholderKept(sp, b, "{usedata}", usedata);
    assert s[|a|..|a| + |sp|] == sp;
    assert OccursAt(s, sp, |a|);
    ContainsIff(s, sp);
    ReplaceOnce(a, sp, b, Bib6(id));
  }

  /** A URL template read as a sequence of pieces: text, or one of the three placeholders. */
  datatype TemplatePiece = Literal(text: string) | Ident | Event | Spct6

  /** The placeholder a piece stands for. */
  function PlaceholderName(k: TemplatePiece): string
    requires !k.Literal?
  {
    match k
    case Ident => "{nameorbibno}"
    case Event => "{usedata}"
    case Spct6 => "{bib_spct6}"
  }

  function PieceText(p: TemplatePiece): string
  {
    if p.Literal? then p.text else PlaceholderName(p)
  }

  /** The template text the pieces spell. */
  function Render(ps: seq<TemplatePiece>): string
  {
    if ps == [] then "" else PieceText(ps[0]) + Render(ps[1..])
  }

  /** Every '{' of the template opens a placeholder: the text pieces hold none. */
  predicate Tidy(ps: seq<TemplatePiece>)
  {
    forall i :: 0 <= i < |ps| ==> ps[i].Literal? ==> '{' !in ps[i].text
  }

  /** The URL the template is meant to give: each placeholder piece replaced by its value. */
  function Fill(ps: seq<TemplatePiece>, id: string, usedata: string, bib6: string): string
  {
    if ps == [] then ""
    else
      var v := match ps[0]
               case Literal(s) => s
               case Ident => id
               case Event => usedata
               case Spct6 => bib6;
      v + Fill(ps[1..], id, usedata, bib6)
  }

  /** The pieces with every `k` turned into the text `r`. */
  function Subst(ps: seq<TemplatePiece>, k: TemplatePiece, r: string): (qs: seq<TemplatePiece>)
    ensures |qs| == |ps|
    ensures forall i :: 0 <= i < |ps| ==> qs[i] == if ps[i] == k then Literal(r) else ps[i]
  {
    if ps == [] then [] else [if ps[0] == k then Literal(r) else ps[0]] + Subst(ps[1..], k, r)
  }

  lemma RenderCons(p: TemplatePiece, ps: seq<TemplatePiece>)
    ensures Render([p] + ps) == PieceText(p) + Render(ps)
  {
  }

  /** What each placeholder looks like: '{' only in front, and a second character of its own. */
  lemma PlaceholderShape(k: TemplatePiece, j: TemplatePiece)
    requires !k.Literal? && !j.Literal?
    ensures var n := PlaceholderName(k);
            |n| >= 2 && n[0] == '{' && '{' !in n[1..]
    ensures k != j ==> PlaceholderName(k)[1] != PlaceholderName(j)[1]
  {
    PlaceholderFront(k);
    PlaceholderFront(j);
  }

  lemma PlaceholderFront(k: TemplatePiece)
    requires !k.Literal?
    ensures var n := PlaceholderName(k);
            |n| >= 2 && n[0] == '{' && '{' !in n[1..] && n[1] == match k case Ident => 'n' case Event => 'u' case Spct6 => 'b'
  {
  }

  /** `replace` of one placeholder passes over an occurrence of another. */
  lemma OtherPlaceholderPasses(q: string, c: string, p: string, r: string)
    requires |p| >= 2 && p[0] == '{' && |q| >= 2 && q[1] != p[1] && '{' !in q[1..]
    ensures Replace(q + c, p, r) == q + Replace(c, p, r)
  {
    var s := q + c;
    if |s| < |p| {
      assert Replace(c, p, r) == c;
    } else {
      assert s[1] == q[1];
      MissStep(s, p, r);
      assert s[1..] == q[1..] + c;
      ReplacePrefixFree(q[1..], c, p, r);
      assert [q[0]] + q[1..] == q;
    }
  }

  /** `replace` of a placeholder on a tidy template replaces exactly its pieces. */
  lemma {:induction false} ReplaceRendered(ps: seq<TemplatePiece>, k: TemplatePiece, r: string)
    requires Tidy(ps) && !k.Literal?
    ensures Replace(Render(ps), PlaceholderName(k), r) == Render(Subst(ps, k, r))
  {
    var n := PlaceholderName(k);
    PlaceholderShape(k, k);
    if ps != [] {
      var rest := Render(ps[1..]);
      ReplaceRendered(ps[1..], k, r);
      RenderCons(Subst(ps, k, r)[0], Subst(ps[1..], k, r));
      assert Subst(ps, k, r) == [Subst(ps, k, r)[0]] + Subst(ps[1..], k, r);
      match ps[0]
      case Literal(s) =>
        ReplacePrefixFree(s, rest, n, r);
      case _ =>
        if ps[0] == k {
          PlaceholderAtFront(n, rest, r);
        } else {
          PlaceholderShape(ps[0], k);
          OtherPlaceholderPasses(PlaceholderName(ps[0]), rest, n, r);
        }
    }
  }

  lemma SubstTidy(ps: seq<TemplatePiece>, k: TemplatePiece, r: string)
    requires Tidy(ps) && '{' !in r
    ensures Tidy(Subst(ps, k, r))
  {
  }

  /** Substituting the three placeholders in turn is filling the template. */
  lemma {:induction false} SubstIsFill(ps: seq<TemplatePiece>, id: string, usedata: string, bib6: string)
    ensures Render(Subst(Subst(Subst(ps, Ident, id), Event, usedata), Spct6, bib6)) == Fill(ps, id, usedata, bib6)
  {
    if ps != [] {
      var qs := Subst(Subst(Subst(ps, Ident, id), Event, usedata), Spct6, bib6);
      SubstIsFill(ps[1..], id, usedata, bib6);
      assert qs == [qs[0]] + Subst(Subst(Subst(ps[1..], Ident, id), Event, usedata), Spct6, bib6);
      RenderCons(qs[0], Subst(Subst(Subst(ps[1..], Ident, id), Event, usedata), Spct6, bib6));
    }
  }

  lemma Bib6NoBrace(id: string)
    requires '{' !in id
    ensures '{' !in Bib6(id)
  {
    var b := Bib6(id);
    if IsDigits(id) {
      forall k | 0 <= k < |b| ensures b[k] != '{' {
        if k >= |b| - |id| {
          assert b[k] == b[|b| - |id|..][k - (|b| - |id|)];
        }
      }
    }
  }

  /** On any template whose every '{' opens a placeholder, `_build_url` replaces every
      occurrence of each placeholder, however many there are, and changes nothing else. */
  lemma BuildUrlFillsTemplate(ps: seq<TemplatePiece>, id: string, usedata: string)
    requires Tidy(ps) && '{' !in id && '{' !in usedata
    ensures BuildUrl(Render(ps), id, usedata) == Fill(ps, id, usedata, Bib6(id))
  {
    var ps1 := Subst(ps, Ident, id);
    var ps2 := Subst(ps1, Event, usedata);
    var ps3 := Subst(ps2, Spct6, Bib6(id));
    ReplaceRendered(ps, Ident, id);
    SubstTidy(ps, Ident, id);
    ReplaceRendered(ps1, Event, usedata);
    SubstTidy(ps1, Event, usedata);
    ReplaceRendered(ps2, Spct6, Bib6(id));
    var u := Render(ps2);
    if !Contains(u, "{bib_spct6}") {
      ReplaceAbsent(u, "{bib_spct6}", Bib6(id));
    }
    SubstIsFill(ps, id, usedata, Bib6(id));
  }

  lemma {:induction false} FillNoBrace(ps: seq<TemplatePiece>, id: string, usedata: string, bib6: string)
    requires Tidy(ps) && '{' !in id && '{' !in usedata && '{' !in bib6
    ensures '{' !in Fill(ps, id, usedata, bib6)
  {
    if ps != [] {
      FillNoBrace(ps[1..], id, usedata, bib6);
    }
  }

  /** Hence no placeholder is left in the URL of such a template. */
  lemma BuildUrlLeavesNoPlaceholder(ps: seq<TemplatePiece>, id: string, usedata: string)
    requires Tidy(ps) && '{' !in id && '{' !in usedata
    ensures var url := BuildUrl(Render(ps), id, usedata);
            !Contains(url, "{nameorbibno}") && !Contains(url, "{usedata}") && !Contains(url, "{bib_spct6}")
  {
    BuildUrlFillsTemplate(ps, id, usedata);
    Bib6NoBrace(id);
    FillNoBrace(ps, id, usedata, Bib6(id));
    var url := BuildUrl(Render(ps), id, usedata);
    NoBraceNoPlaceholder(url, "{nameorbibno}");
    NoBraceNoPlaceholder(url, "{usedata}");
    NoBraceNoPlaceholder(url, "{bib_spct6}");
  }

  /** A template that is not tidy can keep a placeholder: `replace` scans once, so a
      placeholder written around another one is formed by the substitution and stays. */
  lemma NestedPlaceholderSurvives(a: string, b: string, p: string)
    requires p == a + b && |a| >= 2 && p[0] == '{' && '{' !in a[1..] && '{' !in b && b != []
    ensures Replace(a + p + b, p, "") == p
  {
    NestedReplaced(a, b, p, "");
    assert a + "" + b == p;
  }

  /** The one occurrence `replace` finds is the inner one. */
  lemma NestedReplaced(a: string, b: string, p: string, r: string)
    requires p == a + b && |a| >= 2 && p[0] == '{' && '{' !in a[1..] && '{' !in b && b != []
    ensures Replace(a + p + b, p, r) == a + r + b
  {
    var s := a + (p + b);
    assert a + p + b == s;
    NestedMiss(a, b, p);
    MissStep(s, p, r);
    assert s[1..] == a[1..] + (p + b);
    ReplacePrefixFree(a[1..], p + b, p, r);
    PlaceholderAtFront(p, b, r);
    NoBraceNoPlaceholder(b, p);
    ReplaceAbsent(b, p, r);
    assert s[0] == a[0];
    ConsAssoc(a[0], a[1..], r, b);
    assert [a[0]] + a[1..] == a;
  }

  lemma ConsAssoc(c: char, x: string, y: string, z: string)
    ensures [c] + (x + (y + z)) == ([c] + x) + y + z
  {
  }

  /** The outer text does not start with the placeholder: its '{' comes where `b` begins. */
  lemma NestedMiss(a: string, b: string, p: string)
    requires p == a + b && |a| >= 2 && p[0] == '{' && b != [] && '{' !in b
    ensures |a + (p + b)| >= |p| && (a + (p + b))[..|p|] != p
  {
    var s := a + (p + b);
    assert s[|a|] == p[0];
    assert p[|a|] == b[0];
  }

  /** `_build_url` on such a template: `{nameorbibno}` written around `{nameorbibno}` leaves
      `{nameorbibno}` in the URL. */
  lemma NestedIdentifierSurvives(a: string, b: string, usedata: string)
    requires a + b == "{nameorbibno}" && |a| >= 2 && '{' !in a[1..] && '{' !in b && b != []
    ensures BuildUrl(a + "{nameorbibno}" + b, "", usedata) == "{nameorbibno}"
  {
    var n := "{nameorbibno}";
    NestedPlaceholderSurvives(a, b, n);
    PlaceholderShape(Ident, Event);
    PlaceholderShape(Ident, Spct6);
    OtherPlaceholderKept(n, [], "{usedata}", usedata);
    assert n + [] == n;
    BraceOnlyAtStart(n, "{bib_spct6}");
  }

  lemma NestedIdentifierExample()
    ensures BuildUrl("{nameorbib{nameorbibno}no}", "", "") == "{nameorbibno}"
  {
    var a, b := "{nameorbib", "no}";
    assert a + b == "{nameorbibno}";
    assert a + "{nameorbibno}" + b == "{nameorbib{nameorbibno}no}";
    NestedIdentifierSurvives(a, b, "");
  }

  // ---------------------------------------------------------------- MyResult JSON enrichment

  /** What the BeautifulSoup pass over the worker's page yields: the total net time
      (`extract_total_net_time`) and the arrival clock of the "도착" row (`first_time`, or
      ""), or an exception. */
  datatype Scrape = ScrapeRaised | Scraped(total: string, finishClock: string)

  /** `(r.get("point_label") or "").lower() == "finish"`. */
  predicate IsFinishRow(s: SplitDict)
  {
    Lower(s.pointLabel.GetOr("")) == "finish"
  }

  predicate HasFinishRow(splits: seq<SplitDict>)
  {
    exists i :: 0 <= i < |splits| && IsFinishRow(splits[i])
  }

  /** The row the enrichment appends. */
  function FinishRow(total: string, clock: string): SplitDict
  {
    SplitDict(Some("Finish"), None, Some(total), Some(clock), Some(""))
  }

  /** `_handle_myresult_json`: None when it raises (iterating a None split list, outside the
      `try`); otherwise the data, with at most one "Finish" row appended. `worker` is the
      rendering worker's fetch of the unbusted URL. */
  function HandleMyResultJson(url: string, host: string, data: PageData, worker: string -> Fetched,
                              scrape: string -> Scrape, looksTime: string -> bool): Option<PageData>
  {
    if !Contains(Lower(host), "myresult.co.kr") then Some(data)
    else if data.splits.NullSplits? then None
    else if HasFinishRow(SplitsOf(data)) then Some(data)
    else match worker(url)
      case Raised => Some(data)
      case Content(html2) =>
        if html2 == "" || StartsWith(html2, "JSON::") then Some(data)
        else match scrape(html2)
          case ScrapeRaised => Some(data)
          case Scraped(total, clock) =>
            if looksTime(total) then Some(data.(splits := Listed(SplitsOf(data) + [FinishRow(total, clock)])))
            else Some(data)
  }

  /** The cases that leave the data as it was. */
  lemma JsonUnchangedCases(url: string, host: string, data: PageData, worker: string -> Fetched,
                           scrape: string -> Scrape, looksTime: string -> bool)
    ensures !Contains(Lower(host), "myresult.co.kr") ==> HandleMyResultJson(url, host, data, worker, scrape, looksTime) == Some(data)
    ensures !data.splits.NullSplits? && HasFinishRow(SplitsOf(data)) ==>
              HandleMyResultJson(url, host, data, worker, scrape, looksTime) == Some(data)
    ensures !data.splits.NullSplits? && (worker(url).Raised? || worker(url) == Content("") || (worker(url).Content? && StartsWith(worker(url).text, "JSON::"))) ==>
              HandleMyResultJson(url, host, data, worker, scrape, looksTime) == Some(data)
    ensures !data.splits.NullSplits? && worker(url).Content? && scrape(worker(url).text).ScrapeRaised? ==>
              HandleMyResultJson(url, host, data, worker, scrape, looksTime) == Some(data)
  {
  }

  /** The only change is one appended "Finish" row carrying a time-like total, made only when
      no finish row was there; only a None split list on a MyResult host raises. */
  lemma JsonAppendsAtMostOne(url: string, host: string, data: PageData, worker: string -> Fetched,
                             scrape: string -> Scrape, looksTime: string -> bool)
    ensures var r := HandleMyResultJson(url, host, data, worker, scrape, looksTime);
            r.None? <==> Contains(Lower(host), "myresult.co.kr") && data.splits.NullSplits?
    ensures var r := HandleMyResultJson(url, host, data, worker, scrape, looksTime);
            r.Some? && r.value != data ==>
              !HasFinishRow(SplitsOf(data))
              && r.value.raceLabel == data.raceLabel && r.value.raceTotalKm == data.raceTotalKm && r.value.assets == data.assets
              && exists total, clock :: looksTime(total) && SplitsOf(r.value) == SplitsOf(data) + [FinishRow(total, clock)]
  {
    var r := HandleMyResultJson(url, host, data, worker, scrape, looksTime);
    if r.Some? && r.value != data {
      var total := scrape(worker(url).text).total;
      var clock := scrape(worker(url).text).finishClock;
      assert looksTime(total) && SplitsOf(r.value) == SplitsOf(data) + [FinishRow(total, clock)];
    }
  }

  /** Enriched data already has its finish row, so a second pass changes nothing. */
  lemma JsonEnrichmentIdempotent(url: string, host: string, data: PageData, worker: string -> Fetched,
                                 scrape: string -> Scrape, looksTime: string -> bool)
    requires HandleMyResultJson(url, host, data, worker, scrape, looksTime).Some?
    ensures var d := HandleMyResultJson(url, host, data, worker, scrape, looksTime).value;
            HandleMyResultJson(url, host, d, worker, scrape, looksTime) == Some(d)
  {
    var d := HandleMyResultJson(url, host, data, worker, scrape, looksTime).value;
    if d != data {
      var total := scrape(worker(url).text).total;
      var clock := scrape(worker(url).text).finishClock;
      var rows := SplitsOf(data) + [FinishRow(total, clock)];
      assert SplitsOf(d) == rows;
      assert Lower("Finish") == "finish";
      assert IsFinishRow(rows[|rows| - 1]);
    }
  }

  // ---------------------------------------------------------------- one crawl unit

  /** The arguments of `parse(html, host=..., url=..., usedata=..., bib=...)`. */
  datatype ParseRequest = ParseRequest(html: string, host: string, url: string, usedata: string, bib: string)

  /** What `parse(...) or {}` gives: a page dictionary, or an exception. */
  datatype ParseOutcome = ParseRaised | ParsedPage(page: PageData)

  /** The collaborators of a crawl unit: the network, the site parser, the scrape of the
      worker's page, and `looks_time`. */
  datatype Collaborators = Collaborators(
    net: Network,
    parse: ParseRequest -> ParseOutcome,
    scrape: string -> Scrape,
    looksTime: string -> bool)

  /** The arguments `_crawl_one` is called with. */
  datatype Job = Job(pid: int, url: string, bib: string, usedata: string)

  /** The 4-tuple `_crawl_one` returns for a page dictionary. */
  function ResultOf(pid: int, d: PageData): (r: CrawlResult)
    ensures r.pid == pid && r.splits == SplitsOf(d) && r.assets == d.assets
    ensures r.meta == Meta(d.raceLabel, d.raceTotalKm)
  {
    CrawlResult(pid, SplitsOf(d), Meta(d.raceLabel, d.raceTotalKm), d.assets)
  }

  /** `_crawl_one` once `fetch_cached` returned `html`; None when it raises. */
  function UnitResult(job: Job, html: string, env: Collaborators): Option<CrawlResult>
  {
    var host := Urls.HostOf(job.url);
    match env.parse(ParseRequest(html, host, job.url, job.usedata, job.bib))
    case ParseRaised => None
    case ParsedPage(d) =>
      if StartsWith(html, "JSON::") then
        match HandleMyResultJson(job.url, host, d, env.net.worker, env.scrape, env.looksTime)
        case None => None
        case Some(d2) => Some(ResultOf(job.pid, d2))
      else Some(ResultOf(job.pid, d))
  }

  /** `_crawl_one` given what the page cache answered. */
  function UnitOutcome(job: Job, page: Fetched, env: Collaborators): Option<CrawlResult>
  {
    match page
    case Raised => None
    case Content(html) => UnitResult(job, html, env)
  }

  /** A unit's result is about its own participant; a page that is not MyResult JSON is
      reported as the parser read it. */
  lemma UnitOutcomeShape(job: Job, page: Fetched, env: Collaborators)
    ensures UnitOutcome(job, page, env).Some? ==> UnitOutcome(job, page, env).value.pid == job.pid
    ensures page.Raised? ==> UnitOutcome(job, page, env).None?
    ensures page.Content? && !StartsWith(page.text, "JSON::") ==>
              match env.parse(ParseRequest(page.text, Urls.HostOf(job.url), job.url, job.usedata, job.bib))
              case ParseRaised => UnitOutcome(job, page, env).None?
              case ParsedPage(d) => UnitOutcome(job, page, env) == Some(ResultOf(job.pid, d))
  {
  }

  // ---------------------------------------------------------------- admission and lanes

  /** A participant row, reduced to what the crawl reads. */
  datatype Participant = Participant(id: int, nameorbibno: string)

  /** The calls the engine makes on its scheduler. */
  datatype SchedCall =
    | ShouldRunMarathon(mid: int, refreshSec: int)
    | CanFetchParticipant(pid: int)
    | MarkParticipantFetch(pid: int)
    | MarkMarathonRun(mid: int)
    | RecordSuccess(mid: int)
    | RecordFailure(mid: int)
    | GetBackoffTime(mid: int, refreshSec: int)

  /** The scheduler calls for one participant: ask, and mark only when allowed. */
  function Admission(p: Participant, canFetch: int -> bool): seq<SchedCall>
  {
    [CanFetchParticipant(p.id)] + (if canFetch(p.id) then [MarkParticipantFetch(p.id)] else [])
  }

  /** The scheduler calls for one participant: the check, then the mark when it is allowed. */
  lemma AdmissionCases(p: Participant, canFetch: int -> bool)
    ensures canFetch(p.id) ==> Admission(p, canFetch) == [CanFetchParticipant(p.id), MarkParticipantFetch(p.id)]
    ensures !canFetch(p.id) ==> Admission(p, canFetch) == [CanFetchParticipant(p.id)]
  {
  }

  function AdmissionCalls(ps: seq<Participant>, canFetch: int -> bool): seq<SchedCall>
    decreases |ps|
  {
    if ps == [] then [] else AdmissionCalls(ps[..|ps| - 1], canFetch) + Admission(ps[|ps| - 1], canFetch)
  }

  function JobOf(p: Participant, template: string, usedata: string): Job
  {
    Job(p.id, BuildUrl(template, p.nameorbibno, usedata), p.nameorbibno, usedata)
  }

  /** The units of the admitted participants, in input order. */
  function Jobs(ps: seq<Participant>, template: string, usedata: string, canFetch: int -> bool): seq<Job>
    decreases |ps|
  {
    if ps == [] then []
    else
      var rest := Jobs(ps[..|ps| - 1], template, usedata, canFetch);
      if canFetch(ps[|ps| - 1].id) then rest + [JobOf(ps[|ps| - 1], template, usedata)] else rest
  }

  /** `"myresult.co.kr" in host`: these units run one by one after the pool. */
  predicate IsSerialJob(j: Job)
  {
    Contains(Lower(Urls.HostOf(j.url)), "myresult.co.kr")
  }

  predicate IsPooledJob(j: Job)
  {
    !IsSerialJob(j)
  }

  function SerialLane(jobs: seq<Job>): seq<Job>
  {
    Filter(jobs, IsSerialJob)
  }

  function PooledLane(jobs: seq<Job>): seq<Job>
  {
    Filter(jobs, IsPooledJob)
  }

  /** A refused participant gets no unit; every admitted one gets exactly its `_build_url` URL. */
  lemma {:induction false} JobsMember(ps: seq<Participant>, template: string, usedata: string, canFetch: int -> bool, j: Job)
    ensures j in Jobs(ps, template, usedata, canFetch) <==>
            exists i :: 0 <= i < |ps| && canFetch(ps[i].id) && j == JobOf(ps[i], template, usedata)
    decreases |ps|
  {
    if ps != [] {
      var init := ps[..|ps| - 1];
      JobsMember(init, template, usedata, canFetch, j);
      if exists i :: 0 <= i < |init| && canFetch(init[i].id) && j == JobOf(init[i], template, usedata) {
        var i :| 0 <= i < |init| && canFetch(init[i].id) && j == JobOf(init[i], template, usedata);
        assert ps[i] == init[i];
      }
      if exists i :: 0 <= i < |ps| && canFetch(ps[i].id) && j == JobOf(ps[i], template, usedata) {
        var i :| 0 <= i < |ps| && canFetch(ps[i].id) && j == JobOf(ps[i], template, usedata);
        if i < |init| {
          assert init[i] == ps[i];
        }
      }
    }
  }

  /** One more participant extends the calls and the units by its own. */
  lemma AdmissionStep(ps: seq<Participant>, i: nat, template: string, usedata: string, canFetch: int -> bool)
    requires i < |ps|
    ensures AdmissionCalls(ps[..i + 1], canFetch) == AdmissionCalls(ps[..i], canFetch) + Admission(ps[i], canFetch)
    ensures Jobs(ps[..i + 1], template, usedata, canFetch)
            == Jobs(ps[..i], template, usedata, canFetch) + (if canFetch(ps[i].id) then [JobOf(ps[i], template, usedata)] else [])
  {
    assert ps[..i + 1][..i] == ps[..i];
  }

  /** How many participants carry the id. */
  function CountId(ps: seq<Participant>, pid: int): nat
    decreases |ps|
  {
    if ps == [] then 0 else CountId(ps[..|ps| - 1], pid) + (if ps[|ps| - 1].id == pid then 1 else 0)
  }

  /** Every participant is asked once; an allowed one is marked once, a refused one never. */
  lemma {:induction false} AdmissionCounts(ps: seq<Participant>, canFetch: int -> bool, pid: int)
    ensures multiset(AdmissionCalls(ps, canFetch))[CanFetchParticipant(pid)] == CountId(ps, pid)
    ensures multiset(AdmissionCalls(ps, canFetch))[MarkParticipantFetch(pid)] == if canFetch(pid) then CountId(ps, pid) else 0
    decreases |ps|
  {
    if ps != [] {
      AdmissionCounts(ps[..|ps| - 1], canFetch, pid);
    }
  }

  /** One more unit goes to the end of its own lane. */
  lemma LaneStep(jobs: seq<Job>, j: Job)
    ensures SerialLane(jobs + [j]) == SerialLane(jobs) + (if IsSerialJob(j) then [j] else [])
    ensures PooledLane(jobs + [j]) == PooledLane(jobs) + (if IsSerialJob(j) then [] else [j])
  {
    assert (jobs + [j])[..|jobs|] == jobs;
  }

  /** Routing the unit at position `k` extends exactly one lane of the prefix before it. */
  lemma LanePrefixStep(jobs: seq<Job>, k: nat)
    requires k < |jobs|
    ensures SerialLane(jobs[..k + 1]) == SerialLane(jobs[..k]) + (if IsSerialJob(jobs[k]) then [jobs[k]] else [])
    ensures PooledLane(jobs[..k + 1]) == PooledLane(jobs[..k]) + (if IsSerialJob(jobs[k]) then [] else [jobs[k]])
  {
    assert jobs[..k + 1] == jobs[..k] + [jobs[k]];
    LaneStep(jobs[..k], jobs[k]);
  }

  /** Each unit goes to exactly one lane; the serial lane keeps input order. */
  lemma LanesPartitionJobs(jobs: seq<Job>, j: Job)
    ensures j in SerialLane(jobs) <==> j in jobs && IsSerialJob(j)
    ensures j in PooledLane(jobs) <==> j in jobs && !IsSerialJob(j)
    ensures IsSubsequence(SerialLane(jobs), jobs) && IsSubsequence(PooledLane(jobs), jobs)
  {
    FilterMembership(jobs, IsSerialJob, j);
    FilterMembership(jobs, IsPooledJob, j);
    FilterIsSubsequence(jobs, IsSerialJob);
    FilterIsSubsequence(jobs, IsPooledJob);
  }

  lemma {:induction false} LaneSizes(jobs: seq<Job>)
    ensures |SerialLane(jobs)| + |PooledLane(jobs)| == |jobs|
    decreases |jobs|
  {
    if jobs != [] {
      LaneSizes(jobs[..|jobs| - 1]);
    }
  }

  /** The order the pooled results are collected in (`as_completed`): the given permutation,
      or input order when the argument is not one. */
  function LaneOrder(order: seq<nat>, n: nat): (r: seq<nat>)
    ensures IsPermutation(r, n)
  {
    if IsPermutation(order, n) then order else Identity(n)
  }

  /** The page cache, as `fetch_cached` keeps it. */
  type CacheEntries = map<string, (string, real)>

  /** Units run one after another over a shared cache at clock reading `now`: each unit's
      outcome, and the cache after the last one. */
  function RunUnits(jobs: seq<Job>, entries: CacheEntries, now: real, env: Collaborators): (r: (seq<Option<CrawlResult>>, CacheEntries))
    ensures |r.0| == |jobs|
    decreases |jobs|
  {
    if jobs == [] then ([], entries)
    else
      var prev := RunUnits(jobs[..|jobs| - 1], entries, now, env);
      var j := jobs[|jobs| - 1];
      (prev.0 + [UnitOutcome(j, CachedOrFetched(prev.1, j.url, now, env.net), env)], CacheAfter(prev.1, j.url, now, env.net))
  }

  /** One more unit extends the outcomes by its own and moves the cache on. */
  lemma RunUnitsStep(jobs: seq<Job>, k: nat, entries: CacheEntries, now: real, env: Collaborators)
    requires k < |jobs|
    ensures var prev := RunUnits(jobs[..k], entries, now, env);
            RunUnits(jobs[..k + 1], entries, now, env)
            == (prev.0 + [UnitOutcome(jobs[k], CachedOrFetched(prev.1, jobs[k].url, now, env.net), env)],
                CacheAfter(prev.1, jobs[k].url, now, env.net))
  {
    assert jobs[..k + 1][..k] == jobs[..k];
  }

  /** `_crawl_participants`: the pooled lane in collection order, then the serial lane in
      input order; the successful results of the first, then of the second. */
  function CrawlSpec(ps: seq<Participant>, template: string, usedata: string, canFetch: int -> bool, order: seq<nat>,
                     entries: CacheEntries, now: real, env: Collaborators): (seq<CrawlResult>, CacheEntries)
  {
    var jobs := Jobs(ps, template, usedata, canFetch);
    var pooled := PooledLane(jobs);
    var first := RunUnits(Permute(pooled, LaneOrder(order, |pooled|)), entries, now, env);
    var second := RunUnits(SerialLane(jobs), first.1, now, env);
    (Successes(first.0) + Successes(second.0), second.1)
  }

  /** The k-th outcome is the k-th unit's: a result is about that unit's participant. */
  lemma {:induction false} RunUnitsPids(jobs: seq<Job>, entries: CacheEntries, now: real, env: Collaborators, k: nat)
    requires k < |jobs|
    ensures var o := RunUnits(jobs, entries, now, env).0[k]; o.Some? ==> o.value.pid == jobs[k].pid
    decreases |jobs|
  {
    var prev := RunUnits(jobs[..|jobs| - 1], entries, now, env);
    var j := jobs[|jobs| - 1];
    if k < |jobs| - 1 {
      RunUnitsPids(jobs[..|jobs| - 1], entries, now, env, k);
    } else {
      UnitOutcomeShape(j, CachedOrFetched(prev.1, j.url, now, env.net), env);
    }
  }

  /** A result produced by a run of units belongs to one of those units. */
  lemma ResultOfSomeUnit(jobs: seq<Job>, entries: CacheEntries, now: real, env: Collaborators, x: CrawlResult)
    requires x in Successes(RunUnits(jobs, entries, now, env).0)
    ensures exists k :: 0 <= k < |jobs| && x.pid == jobs[k].pid
  {
    var outs := RunUnits(jobs, entries, now, env).0;
    SuccessesMember(outs, x);
    var k :| 0 <= k < |outs| && outs[k] == Some(x);
    RunUnitsPids(jobs, entries, now, env, k);
  }

  /** Every crawl result is about an admitted participant: a refused one is never crawled. */
  lemma CrawlResultsAdmitted(ps: seq<Participant>, template: string, usedata: string, canFetch: int -> bool, order: seq<nat>,
                             entries: CacheEntries, now: real, env: Collaborators, x: CrawlResult)
    requires x in CrawlSpec(ps, template, usedata, canFetch, order, entries, now, env).0
    ensures exists i :: 0 <= i < |ps| && ps[i].id == x.pid && canFetch(x.pid)
  {
    var jobs := Jobs(ps, template, usedata, canFetch);
    var pooled := PooledLane(jobs);
    var lane := Permute(pooled, LaneOrder(order, |pooled|));
    var first := RunUnits(lane, entries, now, env);
    var second := RunUnits(SerialLane(jobs), first.1, now, env);
    var j: Job;
    if x in Successes(first.0) {
      ResultOfSomeUnit(lane, entries, now, env, x);
      var k :| 0 <= k < |lane| && x.pid == lane[k].pid;
      j := lane[k];
      PermuteMember(pooled, LaneOrder(order, |pooled|), j);
      LanesPartitionJobs(jobs, j);
    } else {
      assert x in Successes(second.0);
      ResultOfSomeUnit(SerialLane(jobs), first.1, now, env, x);
      var k :| 0 <= k < |SerialLane(jobs)| && x.pid == SerialLane(jobs)[k].pid;
      j := SerialLane(jobs)[k];
      LanesPartitionJobs(jobs, j);
    }
    assert j in jobs && j.pid == x.pid;
    JobsMember(ps, template, usedata, canFetch, j);
  }

  /** Every admitted unit runs: a pooled one in the pool, whatever the collection order, a
      MyResult one in the serial lane. */
  lemma AdmittedUnitsRun(ps: seq<Participant>, template: string, usedata: string, canFetch: int -> bool, order: seq<nat>, i: nat)
    requires i < |ps| && canFetch(ps[i].id)
    ensures var jobs := Jobs(ps, template, usedata, canFetch);
            var j := JobOf(ps[i], template, usedata);
            var pooled := PooledLane(jobs);
            if IsSerialJob(j) then j in SerialLane(jobs) else j in Permute(pooled, LaneOrder(order, |pooled|))
  {
    var jobs := Jobs(ps, template, usedata, canFetch);
    var j := JobOf(ps[i], template, usedata);
    var pooled := PooledLane(jobs);
    JobsMember(ps, template, usedata, canFetch, j);
    LanesPartitionJobs(jobs, j);
    PermuteMember(pooled, LaneOrder(order, |pooled|), j);
  }

  // ---------------------------------------------------------------- outcome protocol

  /** Which optional scheduler methods exist (`hasattr`). */
  datatype SchedulerKind = SchedulerKind(hasRecordSuccess: bool, hasRecordFailure: bool)

  /** How one `_process_marathon` call ended. */
  datatype MarathonOutcome = NotDue | NoParticipants | Succeeded | Failed

  /** `int(marathon["refresh_sec"] or 60)`. */
  function RefreshOf(refreshSec: Option<int>): (r: int)
    ensures refreshSec.None? || refreshSec == Some(0) ==> r == 60
    ensures refreshSec.Some? && refreshSec.value != 0 ==> r == refreshSec.value
  {
    if refreshSec.None? || refreshSec.value == 0 then 60 else refreshSec.value
  }

  /** After a successful crawl and save. */
  function SuccessCalls(k: SchedulerKind, mid: int): (r: seq<SchedCall>)
    ensures |r| == 1
  {
    if k.hasRecordSuccess then [RecordSuccess(mid)] else [MarkMarathonRun(mid)]
  }

  /** After an exception. */
  function FailureCalls(k: SchedulerKind, mid: int, refresh: int): (r: seq<SchedCall>)
    ensures 1 <= |r| <= 2
  {
    if k.hasRecordFailure then [RecordFailure(mid), GetBackoffTime(mid, refresh)] else [MarkMarathonRun(mid)]
  }

  /** Exactly one of "record" or "mark" follows each crawl: never both, never a success and a
      failure together. */
  lemma OutcomeCallsExclusive(k: SchedulerKind, mid: int, refresh: int)
    ensures RecordSuccess(mid) in SuccessCalls(k, mid) <==> k.hasRecordSuccess
    ensures MarkMarathonRun(mid) in SuccessCalls(k, mid) <==> !k.hasRecordSuccess
    ensures RecordFailure(mid) in FailureCalls(k, mid, refresh) <==> k.hasRecordFailure
    ensures MarkMarathonRun(mid) in FailureCalls(k, mid, refresh) <==> !k.hasRecordFailure
    ensures RecordFailure(mid) !in SuccessCalls(k, mid) && RecordSuccess(mid) !in FailureCalls(k, mid, refresh)
  {
  }

  // ---------------------------------------------------------------- image workers

  /** An entry of the image queue: `(host, usedata, bib, img_url, referer, pid)`. */
  datatype ImageTask = ImageTask(host: string, usedata: Option<string>, bib: string, imageUrl: string, referer: Option<string>, pid: int)

  /** The arguments of `download_image_to(dest, img_url, host, referer)`. */
  datatype DownloadRequest = DownloadRequest(dest: string, imageUrl: string, host: string, referer: Option<string>)

  /** `save_certificate_to_disk(host, usedata, bib, img_url, referer)`: the download to the
      certificate path, as the saved path or None. */
  function SaveCertificate(certDir: string, download: DownloadRequest -> Option<string>): ImageTask -> Option<string>
  {
    (t: ImageTask) => download(DownloadRequest(FileUtils.CertificatePath(certDir, t.usedata, t.bib), t.imageUrl, t.host, t.referer))
  }

  /** One task: a truthy saved path is written to the participant (an UPDATE of a missing id
      changes nothing). */
  function SaveImage(pt: ParticipantTable, t: ImageTask, save: ImageTask -> Option<string>): ParticipantTable
  {
    var saved := save(t);
    if Truthy(saved) && t.pid in pt then pt[t.pid := pt[t.pid].(finishImagePath := saved)] else pt
  }

  /** Where one worker leaves the queue: what is left, the participants, how many
      `task_done` calls it made, and whether it took a sentinel. */
  datatype WorkerEnd = WorkerEnd(queue: seq<Option<ImageTask>>, participants: ParticipantTable, tasksDone: nat, stopped: bool)

  /** `_image_worker` draining the queue alone: tasks in order until the first None, which
      ends it without a `task_done`; an empty queue leaves it waiting. */
  function RunWorker(q: seq<Option<ImageTask>>, pt: ParticipantTable, save: ImageTask -> Option<string>): WorkerEnd
    decreases |q|
  {
    if q == [] then WorkerEnd([], pt, 0, false)
    else if q[0].None? then WorkerEnd(q[1..], pt, 0, true)
    else
      var r := RunWorker(q[1..], SaveImage(pt, q[0].value, save), save);
      r.(tasksDone := r.tasksDone + 1)
  }

  /** A worker at a task handles it and carries on with the rest of the queue. */
  lemma WorkerTakesTask(q: seq<Option<ImageTask>>, pt: ParticipantTable, save: ImageTask -> Option<string>)
    requires q != [] && q[0].Some?
    ensures var r := RunWorker(q, pt, save);
            var s := RunWorker(q[1..], SaveImage(pt, q[0].value, save), save);
            r.queue == s.queue && r.participants == s.participants && r.stopped == s.stopped
            && r.tasksDone == s.tasksDone + 1
  {
  }

  /** A worker at a sentinel stops there, leaving the rest of the queue untouched. */
  lemma WorkerTakesSentinel(q: seq<Option<ImageTask>>, pt: ParticipantTable, save: ImageTask -> Option<string>)
    requires q != [] && q[0].None?
    ensures RunWorker(q, pt, save) == WorkerEnd(q[1..], pt, 0, true)
  {
  }

  /** The sentinels `shutdown` enqueues, one per worker. */
  function Sentinels(n: nat): (r: seq<Option<ImageTask>>)
    ensures |r| == n && forall i :: 0 <= i < n ==> r[i].None?
  {
    if n == 0 then [] else Sentinels(n - 1) + [None]
  }

  predicate NoSentinel(q: seq<Option<ImageTask>>)
  {
    forall i :: 0 <= i < |q| ==> q[i].Some?
  }

  /** The workers one after another, each until it stops or the queue runs out. */
  function RunWorkers(q: seq<Option<ImageTask>>, pt: ParticipantTable, n: nat, save: ImageTask -> Option<string>): (r: (WorkerEnd, nat))
    decreases n
  {
    if n == 0 then (WorkerEnd(q, pt, 0, false), 0)
    else
      var first := RunWorker(q, pt, save);
      var rest := RunWorkers(first.queue, first.participants, n - 1, save);
      (rest.0.(tasksDone := rest.0.tasksDone + first.tasksDone), rest.1 + (if first.stopped then 1 else 0))
  }

  /** A worker handles every task ahead of the first sentinel, takes that sentinel, and
      leaves the rest of the queue. */
  lemma {:induction false} WorkerStopsAtSentinel(tasks: seq<Option<ImageTask>>, rest: seq<Option<ImageTask>>,
                                                pt: ParticipantTable, save: ImageTask -> Option<string>)
    requires NoSentinel(tasks)
    ensures var r := RunWorker(tasks + [None] + rest, pt, save);
            r.stopped && r.queue == rest && r.tasksDone == |tasks|
    decreases |tasks|
  {
    if tasks == [] {
      assert tasks + [None] + rest == [None] + rest;
    } else {
      assert (tasks + [None] + rest)[1..] == tasks[1..] + [None] + rest;
      WorkerStopsAtSentinel(tasks[1..], rest, SaveImage(pt, tasks[0].value, save), save);
    }
  }

  /** Without a sentinel a worker handles every task and keeps waiting. */
  lemma {:induction false} WorkerDrains(tasks: seq<Option<ImageTask>>, pt: ParticipantTable, save: ImageTask -> Option<string>)
    requires NoSentinel(tasks)
    ensures var r := RunWorker(tasks, pt, save);
            !r.stopped && r.queue == [] && r.tasksDone == |tasks|
    decreases |tasks|
  {
    if tasks != [] {
      WorkerDrains(tasks[1..], SaveImage(pt, tasks[0].value, save), save);
    }
  }

  /** After `shutdown` has put one sentinel per worker behind the pending tasks, every
      task is handled once, every worker stops, and the queue is empty. */
  lemma ShutdownDrainsQueue(tasks: seq<Option<ImageTask>>, n: nat, pt: ParticipantTable,
                             save: ImageTask -> Option<string>)
    requires NoSentinel(tasks)
    ensures var r := RunWorkers(tasks + Sentinels(n), pt, n, save);
            r.0.queue == (if n == 0 then tasks else []) && r.0.tasksDone == (if n == 0 then 0 else |tasks|) && r.1 == n
  {
    if n > 0 {
      var q := tasks + Sentinels(n);
      assert q == tasks + [None] + Sentinels(n - 1) by { SentinelsCons(n); }
      WorkerStopsAtSentinel(tasks, Sentinels(n - 1), pt, save);
      var first := RunWorker(q, pt, save);
      SentinelsOnly(n - 1, first.participants, save);
      RunWorkersStep(q, pt, n, save);
    }
  }

  /** `n` workers on a queue of just `n` sentinels each stop at once, leaving it empty. */
  lemma {:induction false} SentinelsOnly(n: nat, pt: ParticipantTable, save: ImageTask -> Option<string>)
    ensures var r := RunWorkers(Sentinels(n), pt, n, save);
            r.0.queue == [] && r.0.tasksDone == 0 && r.1 == n
    decreases n
  {
    if n > 0 {
      var q := Sentinels(n);
      SentinelsCons(n);
      assert q[1..] == Sentinels(n - 1);
      WorkerTakesSentinel(q, pt, save);
      SentinelsOnly(n - 1, pt, save);
      RunWorkersStep(q, pt, n, save);
    }
  }

  /** The first of `n` workers runs to its end; the other `n - 1` start from where it left
      the queue and the participants. */
  lemma RunWorkersStep(q: seq<Option<ImageTask>>, pt: ParticipantTable, n: nat, save: ImageTask -> Option<string>)
    requires n > 0
    ensures var first := RunWorker(q, pt, save);
            var rest := RunWorkers(first.queue, first.participants, n - 1, save);
            var r := RunWorkers(q, pt, n, save);
            r.0.queue == rest.0.queue && r.0.tasksDone == rest.0.tasksDone + first.tasksDone
            && r.1 == rest.1 + (if first.stopped then 1 else 0)
  {
  }

  lemma {:induction false} SentinelsCons(n: nat)
    requires n > 0
    ensures Sentinels(n) == [None] + Sentinels(n - 1)
    decreases n
  {
    if n > 1 {
      SentinelsCons(n - 1);
    }
  }

  /** One task changes at most its own participant's image path, and only to a truthy value. */
  lemma SaveImageOnlySetsPath(pt: ParticipantTable, t: ImageTask, save: ImageTask -> Option<string>, pid: int)
    ensures var pt2 := SaveImage(pt, t, save);
            (pid in pt2 <==> pid in pt)
            && (pid in pt ==> pt2[pid] == pt[pid] || (pid == t.pid && pt2[pid] == pt[pid].(finishImagePath := pt2[pid].finishImagePath) && Truthy(pt2[pid].finishImagePath)))
  {
  }

  /** Across a worker's run, no participant appears or disappears, and an image path only
      ever changes to a truthy value. */
  lemma {:induction false} WorkerOnlySetsPaths(q: seq<Option<ImageTask>>, pt: ParticipantTable,
                                              save: ImageTask -> Option<string>, pid: int)
    ensures var pt2 := RunWorker(q, pt, save).participants;
            (pid in pt2 <==> pid in pt)
            && (pid in pt ==> pt2[pid] == pt[pid] || (pt2[pid] == pt[pid].(finishImagePath := pt2[pid].finishImagePath) && Truthy(pt2[pid].finishImagePath)))
    decreases |q|
  {
    if q != [] && q[0].Some? {
      SaveImageOnlySetsPath(pt, q[0].value, save, pid);
      WorkerOnlySetsPaths(q[1..], SaveImage(pt, q[0].value, save), save, pid);
    }
  }
}
