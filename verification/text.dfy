/**
  Pure string helpers of the storefront: HTML escaping, the promotion
  description parser, and the contact-form e-mail check.
 */
module Text {
  import opened Wrappers
  import opened Js

  // ---------------------------------------------------------------------------
  // htmlEscape
  // ---------------------------------------------------------------------------

  /** The entity a single character is escaped to (itself when it needs none). */
  function EscapeChar(c: char): string {
    if c == '&' then "&amp;"
    else if c == '<' then "&lt;"
    else if c == '>' then "&gt;"
    else if c == '"' then "&quot;"
    else if c == '\'' then "&#39;"
    else [c]
  }

  predicate IsMarkup(c: char) {
    c == '<' || c == '>' || c == '"' || c == '\''
  }

  /** Reference escaping: every character is escaped on its own, in one pass. */
  function EscapeEach(s: string): (r: string)
    ensures forall i :: 0 <= i < |r| ==> !IsMarkup(r[i])
  {
    if |s| == 0 then "" else EscapeChar(s[0]) + EscapeEach(s[1..])
  }

  /** `s.replace(/c/g, rep)`. */
  function ReplaceAll(s: string, c: char, rep: string): string {
    if |s| == 0 then "" else (if s[0] == c then rep else [s[0]]) + ReplaceAll(s[1..], c, rep)
  }

  /** The five chained replacements of `htmlEscape`, `&` first. */
  function EscapeChain(s: string): string {
    var amp := ReplaceAll(s, '&', "&amp;");
    var lt := ReplaceAll(amp, '<', "&lt;");
    var gt := ReplaceAll(lt, '>', "&gt;");
    var quot := ReplaceAll(gt, '"', "&quot;");
    ReplaceAll(quot, '\'', "&#39;")
  }

  lemma {:induction false} ReplaceAllConcat(a: string, b: string, c: char, rep: string)
    ensures ReplaceAll(a + b, c, rep) == ReplaceAll(a, c, rep) + ReplaceAll(b, c, rep)
  {
    if |a| > 0 {
      assert (a + b)[0] == a[0];
      assert (a + b)[1..] == a[1..] + b;
      ReplaceAllConcat(a[1..], b, c, rep);
    } else {
      assert a + b == b;
    }
  }

  lemma {:induction false} ReplaceAllAbsent(s: string, c: char, rep: string)
    requires forall i :: 0 <= i < |s| ==> s[i] != c
    ensures ReplaceAll(s, c, rep) == s
  {
    if |s| > 0 {
      ReplaceAllAbsent(s[1..], c, rep);
    }
  }

  lemma ReplaceAllSingle(x: char, c: char, rep: string)
    ensures ReplaceAll([x], c, rep) == if x == c then rep else [x]
  {
    assert [x][1..] == [];
  }

  lemma EscapeChainConcat(a: string, b: string)
    ensures EscapeChain(a + b) == EscapeChain(a) + EscapeChain(b)
  {
    var amp := ReplaceAll(a + b, '&', "&amp;");
    ReplaceAllConcat(a, b, '&', "&amp;");
    var a1, b1 := ReplaceAll(a, '&', "&amp;"), ReplaceAll(b, '&', "&amp;");
    ReplaceAllConcat(a1, b1, '<', "&lt;");
    var a2, b2 := ReplaceAll(a1, '<', "&lt;"), ReplaceAll(b1, '<', "&lt;");
    ReplaceAllConcat(a2, b2, '>', "&gt;");
    var a3, b3 := ReplaceAll(a2, '>', "&gt;"), ReplaceAll(b2, '>', "&gt;");
    ReplaceAllConcat(a3, b3, '"', "&quot;");
    var a4, b4 := ReplaceAll(a3, '"', "&quot;"), ReplaceAll(b3, '"', "&quot;");
    ReplaceAllConcat(a4, b4, '\'', "&#39;");
  }

  /** The last four replacements leave a string free of their characters alone. */
  lemma ChainTailAbsent(x: string)
    requires forall i :: 0 <= i < |x| ==> !IsMarkup(x[i])
    ensures ReplaceAll(x, '<', "&lt;") == x
    ensures ReplaceAll(x, '>', "&gt;") == x
    ensures ReplaceAll(x, '"', "&quot;") == x
    ensures ReplaceAll(x, '\'', "&#39;") == x
  {
    ReplaceAllAbsent(x, '<', "&lt;");
    ReplaceAllAbsent(x, '>', "&gt;");
    ReplaceAllAbsent(x, '"', "&quot;");
    ReplaceAllAbsent(x, '\'', "&#39;");
  }

  /** On one character, the chain produces exactly that character's entity. */
  lemma EscapeChainChar(c: char)
    ensures EscapeChain([c]) == EscapeChar(c)
  {
    ReplaceAllSingle(c, '&', "&amp;");
    if c == '&' {
      ChainTailAbsent("&amp;");
    } else {
      ReplaceAllSingle(c, '<', "&lt;");
      if c == '<' {
        ChainTailAbsent("&lt;");
      } else {
        ReplaceAllSingle(c, '>', "&gt;");
        if c == '>' {
          ChainTailAbsent("&gt;");
        } else {
          ReplaceAllSingle(c, '"', "&quot;");
          if c == '"' {
            ChainTailAbsent("&quot;");
          } else {
            ReplaceAllSingle(c, '\'', "&#39;");
          }
        }
      }
    }
  }

  /**
    Replacing `&` first makes the five sequential replacements equal to
    escaping each character independently: no entity introduced by a later
    step is escaped again.
   */
  lemma {:induction false} EscapeChainIsEscapeEach(s: string)
    ensures EscapeChain(s) == EscapeEach(s)
  {
    if |s| > 0 {
      assert s == [s[0]] + s[1..];
      EscapeChainConcat([s[0]], s[1..]);
      EscapeChainChar(s[0]);
      EscapeChainIsEscapeEach(s[1..]);
    }
  }

  predicate StartsWith(s: string, prefix: string) {
    |prefix| <= |s| && s[..|prefix|] == prefix
  }

  /** Decodes the five entities `htmlEscape` produces. */
  function Unescape(s: string): string
    decreases |s|
  {
    if |s| == 0 then ""
    else if s[0] != '&' then [s[0]] + Unescape(s[1..])
    else if StartsWith(s, "&amp;") then "&" + Unescape(s[5..])
    else if StartsWith(s, "&lt;") then "<" + Unescape(s[4..])
    else if StartsWith(s, "&gt;") then ">" + Unescape(s[4..])
    else if StartsWith(s, "&quot;") then "\"" + Unescape(s[6..])
    else if StartsWith(s, "&#39;") then "'" + Unescape(s[5..])
    else [s[0]] + Unescape(s[1..])
  }

  /** Decoding an escaped character followed by anything yields the character first. */
  lemma UnescapeHead(c: char, rest: string)
    ensures Unescape(EscapeChar(c) + rest) == [c] + Unescape(rest)
  {
    var e := EscapeChar(c) + rest;
    if c == '&' {
      assert StartsWith(e, "&amp;") && e[5..] == rest;
    } else if c == '<' {
      assert e[1] == 'l' && !StartsWith(e, "&amp;");
      assert StartsWith(e, "&lt;") && e[4..] == rest;
    } else if c == '>' {
      assert e[1] == 'g' && !StartsWith(e, "&amp;") && !StartsWith(e, "&lt;");
      assert StartsWith(e, "&gt;") && e[4..] == rest;
    } else if c == '"' {
      assert e[1] == 'q' && !StartsWith(e, "&amp;") && !StartsWith(e, "&lt;") && !StartsWith(e, "&gt;");
      assert StartsWith(e, "&quot;") && e[6..] == rest;
    } else if c == '\'' {
      assert e[1] == '#' && !StartsWith(e, "&amp;") && !StartsWith(e, "&lt;") && !StartsWith(e, "&gt;");
      assert !StartsWith(e, "&quot;");
      assert StartsWith(e, "&#39;") && e[5..] == rest;
    } else {
      assert e[0] == c && e[1..] == rest;
    }
  }

  lemma {:induction false} UnescapeEscapeEach(s: string)
    ensures Unescape(EscapeEach(s)) == s
  {
    if |s| > 0 {
      UnescapeHead(s[0], EscapeEach(s[1..]));
      UnescapeEscapeEach(s[1..]);
      assert s == [s[0]] + s[1..];
    }
  }

  /**
    `htmlEscape(v)`: a falsy value other than 0 escapes to the empty string;
    anything else is converted with `String` and escaped. The result is the
    one-pass escape of `String(v)`, holds no raw markup character and decodes
    back to `String(v)`.
   */
  function HtmlEscape(v: JsValue): (r: string)
    ensures !Truthy(v) && v != Num(0) ==> r == ""
    ensures v == Num(0) ==> r == "0"
    ensures forall i :: 0 <= i < |r| ==> !IsMarkup(r[i])
    ensures Truthy(v) || v == Num(0) ==> r == EscapeEach(ToJsString(v))
    ensures Truthy(v) || v == Num(0) ==> Unescape(r) == ToJsString(v)
  {
    if !Truthy(v) && v != Num(0) then ""
    else
      var s := ToJsString(v);
      EscapeChainIsEscapeEach(s);
      UnescapeEscapeEach(s);
      EscapeChain(s)
  }

  // ---------------------------------------------------------------------------
  // parseDescriptionToArray
  // ---------------------------------------------------------------------------

  /** `xs.join(d)`. */
  function Join(xs: seq<string>, d: string): string {
    if |xs| == 0 then "" else if |xs| == 1 then xs[0] else xs[0] + d + Join(xs[1..], d)
  }

  /** `s.split(sep)` for a one-character separator: always at least one piece. */
  function Split(s: string, sep: char): (r: seq<string>)
    ensures |r| >= 1
    ensures forall k, i :: 0 <= k < |r| && 0 <= i < |r[k]| ==> r[k][i] != sep
    ensures Join(r, [sep]) == s
  {
    if |s| == 0 then [""]
    else
      var rest := Split(s[1..], sep);
      if s[0] == sep then
        assert Join([""] + rest, [sep]) == [sep] + Join(rest, [sep]);
        [""] + rest
      else
        SplitConsJoin(s[0], rest, sep);
        [[s[0]] + rest[0]] + rest[1..]
  }

  lemma SplitConsJoin(c: char, rest: seq<string>, sep: char)
    requires |rest| >= 1
    ensures Join([[c] + rest[0]] + rest[1..], [sep]) == [c] + Join(rest, [sep])
  {
    if |rest| == 1 {
      assert [[c] + rest[0]] + rest[1..] == [[c] + rest[0]];
    } else {
      ConsJoinMany(c, rest[0], rest[1..], [sep]);
      assert [rest[0]] + rest[1..] == rest;
    }
  }

  lemma ConsJoinMany(c: char, head: string, tail: seq<string>, d: string)
    requires |tail| >= 1
    ensures Join([[c] + head] + tail, d) == [c] + Join([head] + tail, d)
  {
    JoinCons([c] + head, tail, d);
    JoinCons(head, tail, d);
    var j := Join(tail, d);
    assert ([c] + head) + d + j == [c] + (head + d + j);
  }

  lemma JoinCons(x: string, xs: seq<string>, d: string)
    requires |xs| >= 1
    ensures Join([x] + xs, d) == x + d + Join(xs, d)
  {
    assert ([x] + xs)[1..] == xs;
  }

  /** Splitting a join of separator-free pieces gives the pieces back. */
  lemma {:induction false} SplitOfJoin(xs: seq<string>, sep: char)
    requires |xs| >= 1
    requires forall k, i :: 0 <= k < |xs| && 0 <= i < |xs[k]| ==> xs[k][i] != sep
    ensures Split(Join(xs, [sep]), sep) == xs
  {
    if |xs| == 1 {
      SplitSepFree(xs[0], sep);
    } else {
      SplitOfJoin(xs[1..], sep);
      SplitPrefix(xs[0], Join(xs[1..], [sep]), sep);
      assert [xs[0]] + xs[1..] == xs;
    }
  }

  lemma {:induction false} SplitSepFree(s: string, sep: char)
    requires forall i :: 0 <= i < |s| ==> s[i] != sep
    ensures Split(s, sep) == [s]
  {
    if |s| > 0 {
      SplitSepFree(s[1..], sep);
    }
  }

  /** A separator-free prefix followed by the separator splits off as one piece. */
  lemma {:induction false} SplitPrefix(a: string, b: string, sep: char)
    requires forall i :: 0 <= i < |a| ==> a[i] != sep
    ensures Split(a + [sep] + b, sep) == [a] + Split(b, sep)
  {
    if |a| > 0 {
      assert (a + [sep] + b)[1..] == a[1..] + [sep] + b;
      SplitPrefix(a[1..], b, sep);
      assert [a[0]] + a[1..] == a;
    } else {
      assert a + [sep] + b == [sep] + b;
    }
  }

  /** A description piece as the parser produces it. */
  predicate IsCleanPiece(p: string) {
    && p != ""
    && !IsWhitespace(p[0]) && !IsWhitespace(p[|p| - 1])
    && forall i :: 0 <= i < |p| ==> p[i] != ';'
  }

  /** Trimming a `;`-free string gives a clean piece unless it is blank. */
  lemma TrimOfSepFree(p: string)
    requires forall i :: 0 <= i < |p| ==> p[i] != ';'
    ensures Trim(p) != "" ==> IsCleanPiece(Trim(p))
  {
    var r := Trim(p);
    var a := TrimOffset(p);
    forall i | 0 <= i < |r| ensures r[i] != ';' {
      assert r[i] == p[a + i];
    }
  }

  /**
    `pieces.map(s => s.trim()).filter(Boolean)`: trims every piece and keeps
    the non-empty results, in order.
   */
  function TrimAndKeep(pieces: seq<string>): (r: seq<string>)
    requires forall k, i :: 0 <= k < |pieces| && 0 <= i < |pieces[k]| ==> pieces[k][i] != ';'
    ensures |r| <= |pieces|
    ensures forall k :: 0 <= k < |r| ==> IsCleanPiece(r[k])
  {
    if |pieces| == 0 then []
    else
      var t := Trim(pieces[0]);
      TrimOfSepFree(pieces[0]);
      if t == "" then TrimAndKeep(pieces[1..]) else [t] + TrimAndKeep(pieces[1..])
  }

  /** The description parser on a string: split on `;`, trim, drop empty pieces. */
  function ParsePieces(s: string): (r: seq<string>)
    ensures forall k :: 0 <= k < |r| ==> IsCleanPiece(r[k])
  {
    TrimAndKeep(Split(s, ';'))
  }

  /** `parseDescriptionToArray(v)`: undefined and null give no pieces; anything else goes through `String`. */
  function ParseDescription(v: JsValue): (r: seq<string>)
    ensures v.Undefined? || v.Null? ==> r == []
    ensures v.Str? ==> r == ParsePieces(v.s)
    ensures forall k :: 0 <= k < |r| ==> IsCleanPiece(r[k])
  {
    if v.Undefined? || v.Null? then [] else ParsePieces(ToJsString(v))
  }

  /** Trimming and filtering works piece by piece: a concatenation gives the concatenation of the results. */
  lemma {:induction false} TrimAndKeepConcat(a: seq<string>, b: seq<string>)
    requires forall k, i :: 0 <= k < |a| && 0 <= i < |a[k]| ==> a[k][i] != ';'
    requires forall k, i :: 0 <= k < |b| && 0 <= i < |b[k]| ==> b[k][i] != ';'
    ensures TrimAndKeep(a + b) == TrimAndKeep(a) + TrimAndKeep(b)
  {
    if |a| == 0 {
      assert a + b == b;
    } else {
      assert (a + b)[0] == a[0];
      assert (a + b)[1..] == a[1..] + b;
      TrimAndKeepConcat(a[1..], b);
    }
  }

  /** A single piece gives its trim, or nothing when it is blank. */
  lemma TrimAndKeepOne(p: string)
    requires forall i :: 0 <= i < |p| ==> p[i] != ';'
    ensures TrimAndKeep([p]) == if Trim(p) == "" then [] else [Trim(p)]
  {
    assert [p][1..] == [];
  }

  /** The kept pieces are exactly the non-blank trims of the input pieces. */
  lemma {:induction false} TrimAndKeepMembers(pieces: seq<string>, x: string)
    requires forall k, i :: 0 <= k < |pieces| && 0 <= i < |pieces[k]| ==> pieces[k][i] != ';'
    ensures x in TrimAndKeep(pieces) <==> x != "" && exists k :: 0 <= k < |pieces| && Trim(pieces[k]) == x
  {
    if |pieces| > 0 {
      var tail := pieces[1..];
      TrimAndKeepMembers(tail, x);
      if exists k :: 0 <= k < |pieces| && Trim(pieces[k]) == x {
        var k :| 0 <= k < |pieces| && Trim(pieces[k]) == x;
        if k > 0 {
          assert tail[k - 1] == pieces[k];
        }
      }
      if exists k :: 0 <= k < |tail| && Trim(tail[k]) == x {
        var k :| 0 <= k < |tail| && Trim(tail[k]) == x;
        assert pieces[k + 1] == tail[k];
      }
    }
  }

  /** A `;`-free text parses to its trim, or to nothing when it is blank. */
  lemma ParsePiecesOfPiece(a: string)
    requires forall i :: 0 <= i < |a| ==> a[i] != ';'
    ensures ParsePieces(a) == if Trim(a) == "" then [] else [Trim(a)]
  {
    SplitSepFree(a, ';');
    TrimAndKeepOne(a);
  }

  /**
    Parsing cuts at the first `;`: the pieces of the text before it come
    first, then the pieces of the text after it. With `ParsePiecesOfPiece`
    this fixes the parse of every text, order included.
   */
  lemma ParsePiecesAtSeparator(a: string, b: string)
    requires forall i :: 0 <= i < |a| ==> a[i] != ';'
    ensures ParsePieces(a + ";" + b) == ParsePieces(a) + ParsePieces(b)
  {
    SplitPrefix(a, b, ';');
    SplitSepFree(a, ';');
    TrimAndKeepConcat([a], Split(b, ';'));
  }

  /** The parse of a text holds exactly the non-blank trims of its `;`-separated parts. */
  lemma ParsePiecesMembers(s: string, x: string)
    ensures x in ParsePieces(s) <==>
      x != "" && exists k :: 0 <= k < |Split(s, ';')| && Trim(Split(s, ';')[k]) == x
  {
    var pieces := Split(s, ';');
    assert ParsePieces(s) == TrimAndKeep(pieces);
    TrimAndKeepMembers(pieces, x);
    if x in ParsePieces(s) {
      var k :| 0 <= k < |pieces| && Trim(pieces[k]) == x;
      assert Trim(Split(s, ';')[k]) == x;
    }
  }

  /** The pieces of `xs.join("; ")` after the first one each carry one leading space. */
  lemma {:induction false} SplitOfSpacedJoin(xs: seq<string>)
    requires |xs| >= 1
    requires forall k :: 0 <= k < |xs| ==> IsCleanPiece(xs[k])
    ensures var r := Split(Join(xs, "; "), ';');
            && |r| == |xs| && r[0] == xs[0]
            && forall k :: 1 <= k < |xs| ==> r[k] == " " + xs[k]
  {
    if |xs| == 1 {
      SplitSepFree(xs[0], ';');
    } else {
      var tail := Join(xs[1..], "; ");
      SplitOfSpacedJoin(xs[1..]);
      assert Join(xs, "; ") == xs[0] + [';'] + (" " + tail);
      SplitPrefix(xs[0], " " + tail, ';');
      assert (" " + tail)[1..] == tail;
    }
  }

  lemma TrimSpaced(p: string)
    requires IsCleanPiece(p)
    ensures Trim(" " + p) == p
  {
    var s := " " + p;
    assert SkipLeading(s, 1) == 1;
    assert SkipLeading(s, 0) == 1;
    assert SkipTrailing(s, 1, |s|) == |s|;
    assert s[1..|s|] == p;
  }

  /** Pieces that are clean up to one leading space trim back to the clean pieces, and none is dropped. */
  lemma {:induction false} TrimAndKeepSpaced(xs: seq<string>, split: seq<string>)
    requires |split| == |xs|
    requires forall k :: 0 <= k < |xs| ==> IsCleanPiece(xs[k])
    requires forall k :: 0 <= k < |xs| ==> split[k] == xs[k] || split[k] == " " + xs[k]
    requires forall k, i :: 0 <= k < |split| && 0 <= i < |split[k]| ==> split[k][i] != ';'
    ensures TrimAndKeep(split) == xs
  {
    if |xs| > 0 {
      if split[0] == xs[0] {
        TrimOfTrimmed(xs[0]);
      } else {
        TrimSpaced(xs[0]);
      }
      TrimAndKeepSpaced(xs[1..], split[1..]);
    }
  }

  /**
    Joining clean pieces with "; " (what the promotion edit form shows) and
    parsing the text again gives the same pieces.
   */
  lemma {:induction false} ParseOfJoin(xs: seq<string>)
    requires forall k :: 0 <= k < |xs| ==> IsCleanPiece(xs[k])
    ensures ParsePieces(Join(xs, "; ")) == xs
  {
    if |xs| == 0 {
      assert Split("", ';') == [""];
    } else {
      var split := Split(Join(xs, "; "), ';');
      SplitOfSpacedJoin(xs);
      assert forall k :: 0 <= k < |xs| ==> split[k] == xs[k] || split[k] == " " + xs[k];
      TrimAndKeepSpaced(xs, split);
    }
  }

  // ---------------------------------------------------------------------------
  // Contact e-mail: /^[^@\s]+@[^@\s]+\.[^@\s]+$/
  // ---------------------------------------------------------------------------

  /** One `[^@\s]+` run of the pattern. */
  predicate EmailRun(s: string) {
    |s| > 0 && forall i :: 0 <= i < |s| ==> s[i] != '@' && !IsWhitespace(s[i])
  }

  /** The regular expression's meaning: some `@` and some later `.` cut `s` into three runs. */
  ghost predicate MatchesEmailPattern(s: string) {
    exists at, dot :: 0 <= at < dot < |s| && s[at] == '@' && s[dot] == '.'
      && EmailRun(s[..at]) && EmailRun(s[at + 1..dot]) && EmailRun(s[dot + 1..])
  }

  /** The position of the first occurrence of `c` in `s`. */
  function IndexOf(s: string, c: char): (r: Option<nat>)
    ensures r.Some? ==> r.value < |s| && s[r.value] == c && forall i :: 0 <= i < r.value ==> s[i] != c
    ensures r.None? ==> forall i :: 0 <= i < |s| ==> s[i] != c
  {
    if |s| == 0 then None
    else if s[0] == c then Some(0)
    else match IndexOf(s[1..], c)
      case None => None
      case Some(k) => Some(k + 1)
  }

  /** The e-mail check as a scan: split at the first `@`, then look for an inner dot in the domain. */
  predicate IsValidEmail(s: string) {
    match IndexOf(s, '@')
    case None => false
    case Some(at) =>
      var domain := s[at + 1..];
      && EmailRun(s[..at])
      && EmailRun(domain)
      && exists k :: 1 <= k < |domain| - 1 && domain[k] == '.'
  }

  lemma EmailCheckSound(s: string)
    requires IsValidEmail(s)
    ensures MatchesEmailPattern(s)
  {
    var at := IndexOf(s, '@').value;
    var domain := s[at + 1..];
    var k :| 1 <= k < |domain| - 1 && domain[k] == '.';
    var dot := at + 1 + k;
    assert s[at + 1..dot] == domain[..k];
    assert s[dot + 1..] == domain[k + 1..];
    assert EmailRun(s[at + 1..dot]);
    assert EmailRun(s[dot + 1..]);
    assert s[dot] == domain[k];
  }

  lemma EmailCheckComplete(s: string, at: nat, dot: nat)
    requires at < dot < |s| && s[at] == '@' && s[dot] == '.'
    requires EmailRun(s[..at]) && EmailRun(s[at + 1..dot]) && EmailRun(s[dot + 1..])
    ensures IsValidEmail(s)
  {
    forall i | 0 <= i < at ensures s[i] != '@' {
      assert s[i] == s[..at][i];
    }
    assert IndexOf(s, '@') == Some(at);
    var domain := s[at + 1..];
    var k := dot - at - 1;
    assert domain == s[at + 1..dot] + ['.'] + s[dot + 1..];
    assert domain[k] == '.';
    assert EmailRun(domain);
  }

  /** The scan accepts exactly the strings the regular expression matches. */
  lemma EmailCheckMatchesPattern(s: string)
    ensures IsValidEmail(s) <==> MatchesEmailPattern(s)
  {
    if IsValidEmail(s) {
      EmailCheckSound(s);
    }
    if MatchesEmailPattern(s) {
      var at, dot :| 0 <= at < dot < |s| && s[at] == '@' && s[dot] == '.'
        && EmailRun(s[..at]) && EmailRun(s[at + 1..dot]) && EmailRun(s[dot + 1..]);
      EmailCheckComplete(s, at, dot);
    }
  }

  /** The contact form is accepted iff all three trimmed fields are non-blank and the e-mail matches the pattern. */
  function ContactFormAccepted(name: string, email: string, message: string): (ok: bool)
    ensures ok <==> Trim(name) != "" && Trim(message) != "" && MatchesEmailPattern(Trim(email))
  {
    EmailCheckMatchesPattern(Trim(email));
    Trim(name) != "" && Trim(email) != "" && Trim(message) != "" && IsValidEmail(Trim(email))
  }
}
