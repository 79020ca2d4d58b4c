/** The page-range parser of the split tool (app.py:92-126): the user's
    text becomes tokens, each token is judged a single page or an `a-b`
    range against the document's page count, and the accepted pages are
    gathered ascending and without duplicates while rejected tokens are
    kept, in input order, for the warning message. */
module RangeParser {
  import opened Wrappers
  import opened Text
  import opened PageSets

  /** What survives of one comma-separated piece of the input: non-empty,
      free of spaces and commas, with no whitespace at either end. */
  predicate IsToken(t: string) {
    && t != []
    && Plain(t)
    && !IsWhitespace(t[0]) && !IsWhitespace(t[|t| - 1])
  }

  /** The raw tokens of the input (app.py:92): spaces removed, split on
      commas, each piece stripped, empty pieces dropped. */
  function Tokenize(input: string): (tokens: seq<string>)
    ensures forall i :: 0 <= i < |tokens| ==> IsToken(tokens[i])
  {
    var spaceless := Remove(input, ' ');
    var pieces := Split(spaceless, ',');
    assert forall i :: 0 <= i < |pieces| ==> Plain(pieces[i]) by {
      forall i | 0 <= i < |pieces| ensures Plain(pieces[i]) {
        assert forall c :: c in pieces[i] ==> c in spaceless;
      }
    }
    KeepStrippedPlain(pieces);
    KeepStripped(pieces)
  }

  /** Whether a piece of the input is free of spaces and commas. */
  predicate Plain(piece: string) {
    ' ' !in piece && ',' !in piece
  }

  /** The non-empty stripped pieces, in order. */
  function KeepStripped(pieces: seq<string>): (tokens: seq<string>)
    ensures |tokens| <= |pieces|
    ensures forall i :: 0 <= i < |tokens| ==> tokens[i] != []
  {
    if pieces == [] then []
    else
      var t := Strip(pieces[0]);
      (if t == [] then [] else [t]) + KeepStripped(pieces[1..])
  }

  /** Pieces free of spaces and commas strip to tokens. */
  lemma {:induction false} KeepStrippedPlain(pieces: seq<string>)
    requires forall i :: 0 <= i < |pieces| ==> Plain(pieces[i])
    ensures forall i :: 0 <= i < |KeepStripped(pieces)| ==> IsToken(KeepStripped(pieces)[i])
    decreases |pieces|
  {
    if pieces != [] {
      var t := Strip(pieces[0]);
      assert Plain(pieces[0]);
      StripChars(pieces[0], ' ');
      StripChars(pieces[0], ',');
      assert forall i :: 0 <= i < |pieces| - 1 ==> pieces[1..][i] == pieces[i + 1];
      KeepStrippedPlain(pieces[1..]);
    }
  }

  lemma {:induction false} KeepStrippedTokens(tokens: seq<string>)
    requires forall i :: 0 <= i < |tokens| ==> IsToken(tokens[i])
    ensures KeepStripped(tokens) == tokens
    decreases |tokens|
  {
    if tokens != [] {
      NoWhitespaceStrips(tokens[0]);
      KeepStrippedTokens(tokens[1..]);
    }
  }

  /** The pieces of two runs of pieces are kept independently. */
  lemma {:induction false} KeepStrippedAppend(a: seq<string>, b: seq<string>)
    ensures KeepStripped(a + b) == KeepStripped(a) + KeepStripped(b)
    decreases |a|
  {
    if a == [] {
      assert a + b == b;
    } else {
      assert (a + b)[0] == a[0];
      assert (a + b)[1..] == a[1..] + b;
      KeepStrippedAppend(a[1..], b);
    }
  }

  /** One piece is kept, stripped, exactly when it is not blank. */
  lemma {:induction false} KeepStrippedOne(piece: string)
    ensures KeepStripped([piece]) == if Strip(piece) == [] then [] else [Strip(piece)]
  {
    assert [piece][1..] == [];
  }

  /** Text on either side of a comma is tokenized on its own: the tokens
      of `a,b` are those of `a` followed by those of `b`. */
  lemma {:induction false} TokenizeAppend(a: string, b: string)
    ensures Tokenize(a + "," + b) == Tokenize(a) + Tokenize(b)
  {
    var ra, rb := Remove(a, ' '), Remove(b, ' ');
    calc {
      Tokenize(a + "," + b);
      KeepStripped(Split(Remove(a + "," + b, ' '), ','));
      { RemoveSpacesComma(a, b); }
      KeepStripped(Split(ra + [','] + rb, ','));
      { SplitAppend(ra, rb, ','); }
      KeepStripped(Split(ra, ',') + Split(rb, ','));
      { KeepStrippedAppend(Split(ra, ','), Split(rb, ',')); }
      Tokenize(a) + Tokenize(b);
    }
  }

  /** Removing the spaces around a comma keeps the comma between. */
  lemma {:induction false} RemoveSpacesComma(a: string, b: string)
    ensures Remove(a + "," + b, ' ') == Remove(a, ' ') + [','] + Remove(b, ' ')
  {
    assert a + "," + b == a + ("," + b);
    RemoveAppend(a, "," + b, ' ');
    RemoveAppend(",", b, ' ');
    RemoveAbsent(",", ' ');
  }

  /** Text without a comma is one piece: it yields its stripped,
      space-free self as the only token, or nothing when that is
      empty. With TokenizeAppend this fixes the tokens of every input. */
  lemma {:induction false} TokenizePiece(piece: string)
    requires ',' !in piece
    ensures Tokenize(piece) == if Strip(Remove(piece, ' ')) == [] then [] else [Strip(Remove(piece, ' '))]
  {
    KeepStrippedOne(Remove(piece, ' '));
  }

  /** Removing the spaces of a separator leaves the comma. */
  lemma {:induction false} RemoveSpacesSep(sep: string)
    requires sep == ", " || sep == ","
    ensures Remove(sep, ' ') == ","
  {
    if sep == ", " {
      assert sep[1..] == " " && sep[1..][1..] == [];
    } else {
      assert sep[1..] == [];
    }
  }

  /** Joining space-free tokens and then removing spaces is joining them
      with a bare comma. */
  lemma {:induction false} RemoveSpacesJoin(tokens: seq<string>, sep: string)
    requires forall i :: 0 <= i < |tokens| ==> ' ' !in tokens[i]
    requires sep == ", " || sep == ","
    ensures Remove(Join(tokens, sep), ' ') == Join(tokens, ",")
    decreases |tokens|
  {
    if |tokens| == 1 {
      RemoveAbsent(tokens[0], ' ');
    } else if |tokens| > 1 {
      var rest := tokens[1..];
      assert forall i :: 0 <= i < |rest| ==> rest[i] == tokens[i + 1];
      RemoveSpacesJoin(rest, sep);
      RemoveSpacesStep(tokens[0], sep, Join(rest, sep));
    }
  }

  /** One step of `RemoveSpacesJoin`: a space-free token, a separator,
      then the rest. */
  lemma {:induction false} RemoveSpacesStep(t: string, sep: string, tail: string)
    requires ' ' !in t
    requires sep == ", " || sep == ","
    ensures Remove(t + sep + tail, ' ') == t + "," + Remove(tail, ' ')
  {
    var rest := Remove(tail, ' ');
    calc {
      Remove(t + sep + tail, ' ');
      { assert t + sep + tail == t + (sep + tail); }
      Remove(t + (sep + tail), ' ');
      { RemoveAppend(t, sep + tail, ' '); RemoveAbsent(t, ' '); }
      t + Remove(sep + tail, ' ');
      { RemoveAppend(sep, tail, ' '); RemoveSpacesSep(sep); }
      t + ("," + rest);
    }
    assert t + ("," + rest) == t + "," + rest;
  }

  /** Tokenizing undoes joining: tokens written out with `,` or `, `
      between them are read back exactly. The empty list reads back as no
      tokens, the "No pages or ranges specified." case. */
  lemma {:induction false} TokenizeJoin(tokens: seq<string>)
    requires forall i :: 0 <= i < |tokens| ==> IsToken(tokens[i])
    ensures Tokenize(Join(tokens, ",")) == tokens
    ensures Tokenize(Join(tokens, ", ")) == tokens
  {
    assert forall i :: 0 <= i < |tokens| ==> ' ' !in tokens[i] by {
      forall i | 0 <= i < |tokens| ensures ' ' !in tokens[i] {
        assert IsToken(tokens[i]);
      }
    }
    RemoveSpacesJoin(tokens, ",");
    RemoveSpacesJoin(tokens, ", ");
    if tokens == [] {
      assert Split([], ',') == [[]];
    } else {
      SplitJoin(tokens, ',');
      KeepStrippedTokens(tokens);
    }
  }

  /** The judgement on one token. */
  datatype Verdict = Rejected | Accepted(pages: seq<int>)

  /** Whether the pages `s..e` and the document's pages `1..total` have a
      page in common. */
  predicate MeetsDocument(s: int, e: int, total: nat) {
    (if s < 1 then 1 else s) <= (if e < total then e else total)
  }

  /** A token without `-` (app.py:117-125): `int(tok)`, accepted when it
      names a page of the document. */
  function ClassifySingle(tok: string, total: nat): (v: Verdict)
    ensures v.Accepted? <==> ParseInt(tok).Some? && 1 <= ParseInt(tok).value <= total
    ensures v.Accepted? ==> v.pages == [ParseInt(tok).value]
  {
    match ParseInt(tok)
    case Some(p) => if 1 <= p <= total then Accepted([p]) else Rejected
    case None => Rejected
  }

  /** A range `start-end` (app.py:101-115), as the code does it: reject a
      bad number, an end below 1, or both ends past the last page; then
      clamp to the document and reject an empty result. The promise is
      simpler: a range is accepted exactly when both ends are at least 1
      and it names some page of the document, and then it contributes
      exactly the document's pages it names, ascending. The test for both
      ends past the last page never decides anything the clamp test would
      not. */
  function ClassifyRange(start: string, end: string, total: nat): (v: Verdict)
    ensures v.Accepted? <==>
      && ParseInt(start).Some? && ParseInt(end).Some?
      && 1 <= ParseInt(start).value && 1 <= ParseInt(end).value
      && MeetsDocument(ParseInt(start).value, ParseInt(end).value, total)
    ensures v.Accepted? ==>
      && StrictlyAscending(v.pages)
      && forall n :: n in v.pages <==>
           1 <= n <= total && ParseInt(start).value <= n <= ParseInt(end).value
  {
    match (ParseInt(start), ParseInt(end))
    case (Some(s), Some(e)) =>
      if s < 1 || e < 1 || (s > total && e > total) then Rejected
      else
        var lo := if s < 1 then 1 else s;
        var hi := if e < total then e else total;
        if lo <= hi then
          IntervalMembers(lo, hi);
          Accepted(Interval(lo, hi))
        else Rejected
    case _ => Rejected
  }

  /** One token (app.py:99-125): a token holding `-` is a range split at
      its first `-`, any other is a single page. Whatever a token
      contributes is a non-empty ascending run of pages of the document. */
  function Classify(tok: string, total: nat): (v: Verdict)
    ensures v.Accepted? ==> v.pages != [] && StrictlyAscending(v.pages)
    ensures v.Accepted? ==> forall k :: 0 <= k < |v.pages| ==> 1 <= v.pages[k] <= total
  {
    if '-' in tok then
      var i := IndexOf(tok, '-');
      var v := ClassifyRange(tok[..i], tok[i + 1..], total);
      assert v.Accepted? ==> v.pages != [] by {
        if v.Accepted? {
          var s := ParseInt(tok[..i]).value;
          assert s in v.pages;
        }
      }
      v
    else ClassifySingle(tok, total)
  }

  /** A single page `p` is judged exactly as the range `p-p`. */
  lemma {:induction false} SingleIsDegenerateRange(tok: string, total: nat)
    requires '-' !in tok
    ensures Classify(tok, total) == Classify(tok + "-" + tok, total)
  {
    var r := tok + "-" + tok;
    assert r[..|tok|] == tok;
    assert r[|tok|] == '-';
    IndexOfFirst(r, '-', |tok|);
    assert r[|tok| + 1..] == tok;
    match ParseInt(tok)
    case Some(p) =>
      if 1 <= p <= total {
        IntervalMembers(p, p);
        assert Interval(p, p) == [p];
      }
    case None =>
  }

  /** A token holding `-` is split at its first `-`, and what follows it
      may hold more: `1--2` is the range from 1 to -2, which is refused. */
  lemma {:induction false} RangeSplitsAtFirstDash(a: string, b: string, total: nat)
    requires '-' !in a
    ensures Classify(a + "-" + b, total) == ClassifyRange(a, b, total)
  {
    var t := a + "-" + b;
    assert t[..|a|] == a;
    assert t[|a|] == '-';
    IndexOfFirst(t, '-', |a|);
    assert t[|a| + 1..] == b;
  }

  /** A range written as two numerals `s-e`: refused unless both ends
      are at least 1, `s <= e` and `s` is a page of the document; if
      accepted, it selects `s` to `e` clamped to the last page. */
  lemma {:induction false} NumeralRange(s: nat, e: nat, total: nat)
    ensures Classify(NatToString(s) + "-" + NatToString(e), total)
         == if 1 <= s <= e && s <= total
            then Accepted(Interval(s, if e < total then e else total))
            else Rejected
  {
    NumeralParses(s);
    NumeralParses(e);
    var a := NatToString(s);
    assert '-' !in a by {
      forall k | 0 <= k < |a| ensures a[k] != '-' {
        assert IsDigit(a[k]);
      }
    }
    RangeSplitsAtFirstDash(a, NatToString(e), total);
  }

  /** In a 10-page document `8-15` is clamped to pages 8 to 10 rather
      than refused. */
  lemma {:induction false} ClampExample(tok: string, total: nat)
    requires tok == "8-15" && total == 10
    ensures Classify(tok, total) == Accepted([8, 9, 10])
  {
    assert tok == NatToString(8) + "-" + NatToString(15) by {
      assert NatToString(1) == "1";
    }
    assert Interval(8, 10) == [8, 9, 10];
    NumeralRange(8, 15, total);
  }

  /** In a 10-page document the reversed `10-8` is refused, and so is
      `99-5`, whose start is past the last page. */
  lemma {:induction false} ReversedExample(reversed: string, beyond: string, total: nat)
    requires reversed == "10-8" && beyond == "99-5" && total == 10
    ensures Classify(reversed, total) == Rejected
    ensures Classify(beyond, total) == Rejected
  {
    assert NatToString(1) == "1" && NatToString(9) == "9";
    assert reversed == NatToString(10) + "-" + NatToString(8);
    assert beyond == NatToString(99) + "-" + NatToString(5);
    NumeralRange(10, 8, total);
    NumeralRange(99, 5, total);
  }

  /** A token with a second `-` is split at its first `-`, and the end
      part still holds a `-`: either `int()` raises on it, as on the `2-3`
      of `1-2-3`, or that `-` is its sign, as in `1--3`, and the end is
      below 1. Either way the token is refused, whatever the document. */
  lemma {:induction false} SecondDashRefused(a: string, b: string, c: string, total: nat)
    requires '-' !in a
    ensures Classify(a + "-" + b + "-" + c, total) == Rejected
  {
    var end := b + "-" + c;
    assert ParseInt(end).Some? ==> ParseInt(end).value < 1 by {
      assert end[|b|] == '-';
      MinusMeansNonPositive(end, |b|);
    }
    calc {
      Classify(a + "-" + b + "-" + c, total);
      { assert a + "-" + b + "-" + c == a + "-" + end; }
      Classify(a + "-" + end, total);
      { RangeSplitsAtFirstDash(a, end, total); }
      ClassifyRange(a, end, total);
      Rejected;
    }
  }

  /** `int(str(n)) == n` without surrounding whitespace. */
  lemma {:induction false} NumeralParses(n: nat)
    ensures ParseInt(NatToString(n)) == Some(n)
  {
    assert [] + NatToString(n) + [] == NatToString(n);
    ParseIntRoundTrip(n, [], []);
  }

  /** The pages a verdict adds to `valid_pages`: none for a rejection. */
  function Contribution(v: Verdict): seq<int> {
    match v
    case Accepted(pages) => pages
    case Rejected => []
  }

  /** Whether page `n` is among what token `tok` contributes. */
  predicate Contributes(tok: string, total: nat, n: int) {
    n in Contribution(Judge(total)(tok))
  }

  /** The verdict a judgement passes on each token, in token order. */
  function Verdicts(tokens: seq<string>, judge: string -> Verdict): (vs: seq<Verdict>)
    ensures |vs| == |tokens|
    ensures forall i :: 0 <= i < |tokens| ==> vs[i] == judge(tokens[i])
  {
    seq(|tokens|, i requires 0 <= i < |tokens| => judge(tokens[i]))
  }

  /** Whether a verdict accepts only pages of a `total`-page document. */
  predicate WithinDocument(v: Verdict, total: nat) {
    forall k :: 0 <= k < |Contribution(v)| ==> 1 <= Contribution(v)[k] <= total
  }

  /** `valid_pages` before sorting (app.py:96-125): what the verdicts
      contribute, in token order, duplicates kept. */
  function Gathered(vs: seq<Verdict>): seq<int> {
    if vs == [] then [] else Gathered(vs[..|vs| - 1]) + Contribution(vs[|vs| - 1])
  }

  /** Gathering keeps pages within the document. */
  lemma {:induction false} GatheredWithin(vs: seq<Verdict>, total: nat)
    requires forall i :: 0 <= i < |vs| ==> WithinDocument(vs[i], total)
    ensures forall k :: 0 <= k < |Gathered(vs)| ==> 1 <= Gathered(vs)[k] <= total
    decreases |vs|
  {
    if vs != [] {
      var init := vs[..|vs| - 1];
      var last := Contribution(vs[|vs| - 1]);
      assert WithinDocument(vs[|vs| - 1], total);
      GatheredWithin(init, total);
      var g := Gathered(init) + last;
      forall k | 0 <= k < |g| ensures 1 <= g[k] <= total {
        if k >= |Gathered(init)| {
          assert g[k] == last[k - |Gathered(init)|];
        }
      }
    }
  }

  /** A page is gathered exactly when some verdict contributes it. */
  lemma {:induction false} GatheredMembers(vs: seq<Verdict>, n: int)
    ensures n in Gathered(vs) <==> exists i :: 0 <= i < |vs| && n in Contribution(vs[i])
    decreases |vs|
  {
    if vs != [] {
      var init := vs[..|vs| - 1];
      GatheredMembers(init, n);
      if exists i :: 0 <= i < |vs| && n in Contribution(vs[i]) {
        var i :| 0 <= i < |vs| && n in Contribution(vs[i]);
        if i < |init| {
          assert init[i] == vs[i];
        }
      }
      if exists i :: 0 <= i < |init| && n in Contribution(init[i]) {
        var i :| 0 <= i < |init| && n in Contribution(init[i]);
        assert vs[i] == init[i];
      }
    }
  }

  /** `invalid_tokens` (app.py:97-125): the tokens whose verdict is a
      rejection, in input order, repetitions kept. */
  function RejectedTokens(tokens: seq<string>, vs: seq<Verdict>): (bad: seq<string>)
    requires |vs| == |tokens|
    ensures |bad| <= |tokens|
  {
    if tokens == [] then []
    else
      var k := |tokens| - 1;
      RejectedTokens(tokens[..k], vs[..k]) + (if vs[k].Rejected? then [tokens[k]] else [])
  }

  /** A token is reported exactly when some occurrence of it is
      rejected. */
  lemma {:induction false} RejectedTokensMembers(tokens: seq<string>, vs: seq<Verdict>)
    requires |vs| == |tokens|
    ensures forall t :: t in RejectedTokens(tokens, vs) <==>
              exists i :: 0 <= i < |tokens| && tokens[i] == t && vs[i].Rejected?
    decreases |tokens|
  {
    if tokens != [] {
      var k := |tokens| - 1;
      var rest := RejectedTokens(tokens[..k], vs[..k]);
      RejectedTokensMembers(tokens[..k], vs[..k]);
      var bad := RejectedTokens(tokens, vs);
      assert bad == rest + (if vs[k].Rejected? then [tokens[k]] else []);
      forall t ensures t in bad <==> exists i :: 0 <= i < |tokens| && tokens[i] == t && vs[i].Rejected? {
        if t in rest {
          var i :| 0 <= i < k && tokens[..k][i] == t && vs[..k][i].Rejected?;
          assert tokens[i] == t && vs[i].Rejected?;
        }
        if exists i :: 0 <= i < |tokens| && tokens[i] == t && vs[i].Rejected? {
          var i :| 0 <= i < |tokens| && tokens[i] == t && vs[i].Rejected?;
          if i < k {
            assert tokens[..k][i] == t && vs[..k][i].Rejected?;
          }
        }
      }
    }
  }

  lemma {:induction false} RejectedTokensAppend(a: seq<string>, va: seq<Verdict>, b: seq<string>, vb: seq<Verdict>)
    requires |va| == |a| && |vb| == |b|
    ensures RejectedTokens(a + b, va + vb) == RejectedTokens(a, va) + RejectedTokens(b, vb)
    decreases |b|
  {
    if b == [] {
      assert a + b == a && va + vb == va;
    } else {
      var k := |b| - 1;
      var ab, vab := a + b, va + vb;
      var n := |a| + k;
      var last := if vb[k].Rejected? then [b[k]] else [];
      var ra, rb := RejectedTokens(a, va), RejectedTokens(b[..k], vb[..k]);
      assert RejectedTokens(b, vb) == rb + last;
      assert RejectedTokens(ab, vab) == RejectedTokens(ab[..n], vab[..n]) + last by {
        assert ab[n] == b[k] && vab[n] == vb[k];
      }
      assert RejectedTokens(ab[..n], vab[..n]) == ra + rb by {
        assert ab[..n] == a + b[..k] && vab[..n] == va + vb[..k];
        RejectedTokensAppend(a, va, b[..k], vb[..k]);
      }
      assert (ra + rb) + last == ra + (rb + last);
    }
  }

  /** The outcome of parsing: `valid_pages` after line 126 and
      `invalid_tokens`. */
  datatype Selection = Selection(validPages: seq<int>, invalidTokens: seq<string>)

  /** Lines 96-126 for any judgement of the tokens: the accepted pages are
      the ascending, duplicate-free union of what the tokens contribute;
      the rejected tokens are exactly those judged `Rejected`, in input
      order. */
  function Collect(tokens: seq<string>, judge: string -> Verdict): (sel: Selection)
    ensures StrictlyAscending(sel.validPages)
    ensures forall n :: n in sel.validPages <==>
              exists i :: 0 <= i < |tokens| && n in Contribution(judge(tokens[i]))
    ensures forall t :: t in sel.invalidTokens <==> t in tokens && judge(t).Rejected?
  {
    var vs := Verdicts(tokens, judge);
    var gathered := Gathered(vs);
    var pages := SortedSet(gathered);
    SortedSetMembers(gathered);
    assert forall n :: n in pages <==> exists i :: 0 <= i < |tokens| && n in Contribution(judge(tokens[i])) by {
      forall n ensures n in pages <==> exists i :: 0 <= i < |tokens| && n in Contribution(judge(tokens[i])) {
        GatheredMembers(vs, n);
        if exists i :: 0 <= i < |vs| && n in Contribution(vs[i]) {
          var i :| 0 <= i < |vs| && n in Contribution(vs[i]);
          assert n in Contribution(judge(tokens[i]));
        }
      }
    }
    RejectedTokensMembers(tokens, vs);
    assert forall t :: t in tokens <==> exists i :: 0 <= i < |tokens| && tokens[i] == t;
    Selection(pages, RejectedTokens(tokens, vs))
  }

  /** Rejections are reported in input order: the rejections of two runs
      of tokens are those of the first followed by those of the second. */
  lemma {:induction false} CollectRejectionsAppend(a: seq<string>, b: seq<string>, judge: string -> Verdict)
    ensures Collect(a + b, judge).invalidTokens == Collect(a, judge).invalidTokens + Collect(b, judge).invalidTokens
  {
    var va := Verdicts(a, judge);
    var vb := Verdicts(b, judge);
    assert Verdicts(a + b, judge) == va + vb;
    RejectedTokensAppend(a, va, b, vb);
  }

  /** The order of the tokens does not matter to the accepted pages: any
      rearrangement of the same tokens selects the same page list. */
  lemma {:induction false} CollectPermutation(a: seq<string>, b: seq<string>, judge: string -> Verdict)
    requires multiset(a) == multiset(b)
    ensures Collect(a, judge).validPages == Collect(b, judge).validPages
  {
    var pa := Collect(a, judge).validPages;
    var pb := Collect(b, judge).validPages;
    forall n ensures n in pa <==> n in pb {
      if n in pa {
        var i :| 0 <= i < |a| && n in Contribution(judge(a[i]));
        assert a[i] in multiset(b);
        var j :| 0 <= j < |b| && b[j] == a[i];
        assert n in Contribution(judge(b[j]));
      }
      if n in pb {
        var j :| 0 <= j < |b| && n in Contribution(judge(b[j]));
        assert b[j] in multiset(a);
        var i :| 0 <= i < |a| && a[i] == b[j];
        assert n in Contribution(judge(a[i]));
      }
    }
    AscendingUnique(pa, pb);
  }

  /** The judgement the program passes on a token for a `total`-page
      document. */
  function Judge(total: nat): string -> Verdict {
    tok => Classify(tok, total)
  }

  /** Whatever the program accepts lies within the document. */
  lemma {:induction false} JudgeWithin(total: nat)
    ensures forall t :: WithinDocument(Judge(total)(t), total)
  {
    forall t ensures WithinDocument(Judge(total)(t), total) {
      assert Judge(total)(t) == Classify(t, total);
    }
  }

  /** A judgement that accepts only pages of the document collects only
      pages of the document. */
  lemma {:induction false} CollectWithin(tokens: seq<string>, judge: string -> Verdict, total: nat)
    requires forall t :: WithinDocument(judge(t), total)
    ensures forall k :: 0 <= k < |Collect(tokens, judge).validPages| ==>
              1 <= Collect(tokens, judge).validPages[k] <= total
  {
    var vs := Verdicts(tokens, judge);
    var pages := Collect(tokens, judge).validPages;
    GatheredWithin(vs, total);
    SortedSetMembers(Gathered(vs));
    forall k | 0 <= k < |pages| ensures 1 <= pages[k] <= total {
      assert pages[k] in Gathered(vs);
    }
  }

  /** Lines 96-126 over the tokens: the accepted pages are the ascending,
      duplicate-free union of what the tokens contribute, each within the
      document; the rejected tokens are exactly those judged `Rejected`. */
  function ParseTokens(tokens: seq<string>, total: nat): (sel: Selection)
    ensures StrictlyAscending(sel.validPages)
    ensures forall k :: 0 <= k < |sel.validPages| ==> 1 <= sel.validPages[k] <= total
    ensures forall n :: n in sel.validPages <==>
              exists i :: 0 <= i < |tokens| && Contributes(tokens[i], total, n)
    ensures forall t :: t in sel.invalidTokens <==> t in tokens && Judge(total)(t).Rejected?
  {
    var judge := Judge(total);
    var sel := Collect(tokens, judge);
    JudgeWithin(total);
    CollectWithin(tokens, judge, total);
    sel
  }

  /** Rejections are reported in input order. */
  lemma {:induction false} RejectionsAppend(a: seq<string>, b: seq<string>, total: nat)
    ensures ParseTokens(a + b, total).invalidTokens
            == ParseTokens(a, total).invalidTokens + ParseTokens(b, total).invalidTokens
  {
    CollectRejectionsAppend(a, b, Judge(total));
  }

  /** The order of the tokens does not matter to the accepted pages. */
  lemma {:induction false} ParsePermutation(a: seq<string>, b: seq<string>, total: nat)
    requires multiset(a) == multiset(b)
    ensures ParseTokens(a, total).validPages == ParseTokens(b, total).validPages
  {
    CollectPermutation(a, b, Judge(total));
  }

  /** The whole parser (app.py:92-126): `None` is the "No pages or ranges
      specified." error, raised exactly when no token survives. */
  function Parse(input: string, total: nat): (r: Option<Selection>)
    ensures r.None? <==> Tokenize(input) == []
    ensures r.Some? ==> r.value == ParseTokens(Tokenize(input), total)
  {
    var tokens := Tokenize(input);
    if tokens == [] then None else Some(ParseTokens(tokens, total))
  }

  /** The loop of app.py:96-126 as written: `extend` for a range,
      `append` for a page or a rejected token, then `sorted(set(...))`. */
  method ParseLoop(tokens: seq<string>, total: nat) returns (validPages: seq<int>, invalidTokens: seq<string>)
    ensures Selection(validPages, invalidTokens) == ParseTokens(tokens, total)
  {
    ghost var vs := Verdicts(tokens, Judge(total));
    var collected: seq<int> := [];
    invalidTokens := [];
    for i := 0 to |tokens|
      invariant collected == Gathered(vs[..i])
      invariant invalidTokens == RejectedTokens(tokens[..i], vs[..i])
    {
      var tok := tokens[i];
      var v := Classify(tok, total);
      assert v == vs[i];
      GatherStep(tokens, vs, i);
      match v
      case Accepted(pages) =>
        collected := collected + pages;
      case Rejected =>
        invalidTokens := invalidTokens + [tok];
    }
    assert tokens[..|tokens|] == tokens && vs[..|vs|] == vs;
    assert ParseTokens(tokens, total) == Selection(SortedSet(Gathered(vs)), RejectedTokens(tokens, vs));
    validPages := SortedSet(collected);
  }

  /** One more token for the loop of `ParseLoop`. */
  lemma {:induction false} GatherStep(tokens: seq<string>, vs: seq<Verdict>, i: nat)
    requires |vs| == |tokens| && i < |tokens|
    ensures Gathered(vs[..i + 1]) == Gathered(vs[..i]) + Contribution(vs[i])
    ensures RejectedTokens(tokens[..i + 1], vs[..i + 1])
            == RejectedTokens(tokens[..i], vs[..i]) + (if vs[i].Rejected? then [tokens[i]] else [])
  {
    assert vs[..i + 1][..i] == vs[..i] && tokens[..i + 1][..i] == tokens[..i];
  }

  /** A lone token: if accepted, its pages are the selection and nothing
      is rejected; if refused, nothing is selected and it is the one
      rejection. */
  lemma {:induction false} OneToken(tok: string, total: nat)
    ensures Classify(tok, total).Accepted? ==>
              ParseTokens([tok], total) == Selection(Classify(tok, total).pages, [])
    ensures Classify(tok, total).Rejected? ==>
              ParseTokens([tok], total) == Selection([], [tok])
  {
    var v := Classify(tok, total);
    assert Judge(total)(tok) == v;
    CollectOne(tok, Judge(total));
    if v.Accepted? {
      SortedSetOfAscending(v.pages);
    }
  }

  /** Collecting a lone token, for any judgement. */
  lemma {:induction false} CollectOne(tok: string, judge: string -> Verdict)
    ensures judge(tok).Accepted? ==>
              Collect([tok], judge) == Selection(SortedSet(judge(tok).pages), [])
    ensures judge(tok).Rejected? ==> Collect([tok], judge) == Selection([], [tok])
  {
    var v := judge(tok);
    var vs := Verdicts([tok], judge);
    assert vs == [v] by {
      assert [tok][..0] == [];
    }
    assert vs[..0] == [];
    assert Gathered(vs) == Contribution(v);
  }
}
