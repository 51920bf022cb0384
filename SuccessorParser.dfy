/** The successor-string parser: a workflow's `NextWorkflows` text is a
    `;`-separated list of entries, each `target` or `condition:target`;
    entries whose target is not an integer are dropped. */
module SuccessorParser {
  import opened Wrappers
  import opened Text
  import opened Workflows

  /** One trimmed entry. The first ':' splits it into condition and target
      only when it is not the entry's first character. */
  function ParseToken(token: String): Option<Link> {
    var p := IndexOf(token, ':');
    var cond := if p > 0 then Some(Trim(token[..p])) else None;
    var target := if p > 0 then Trim(token[p + 1..]) else token;
    match ParseInt32(target)
    case Some(n) => Some(Link(n, cond))
    case None => None
  }

  /** The links of the entries that parse, in entry order. */
  function ParseTokens(tokens: seq<String>): (links: seq<Link>)
    ensures |links| <= |tokens|
  {
    FilterMap(tokens, ParseToken)
  }

  /** The values `f` gives for the elements of `xs` it accepts, in order. */
  function FilterMap<X, Y>(xs: seq<X>, f: X -> Option<Y>): (ys: seq<Y>)
    ensures |ys| <= |xs|
  {
    if |xs| == 0 then []
    else
      var front := FilterMap(xs[..|xs| - 1], f);
      match f(xs[|xs| - 1])
      case Some(y) => front + [y]
      case None => front
  }

  /** The entries of a successor string: trimmed, non-empty, split on ';'. */
  function Tokens(nextWorkflows: Option<String>): seq<String> {
    SplitEntries(Trim(nextWorkflows.GetOr("")), ';')
  }

  /** What `ParseNext` returns for a successor string. */
  function NextLinks(nextWorkflows: Option<String>): seq<Link> {
    ParseTokens(Tokens(nextWorkflows))
  }

  /** The parser as the builder runs it: one pass over the entries, appending
      each one that parses. */
  method ParseNext(nextWorkflows: Option<String>) returns (res: seq<Link>)
    ensures res == NextLinks(nextWorkflows)
  {
    res := [];
    var next := Trim(nextWorkflows.GetOr(""));
    if IsNullOrWhiteSpace(Some(next)) {
      BlankHasNoLinks(nextWorkflows);
      return;
    }
    var tokens := SplitEntries(next, ';');
    for i := 0 to |tokens|
      invariant res == ParseTokens(tokens[..i])
    {
      var token := tokens[i];
      var cond: Option<String> := None;
      var target := token;
      var p := IndexOf(token, ':');
      if p > 0 {
        cond := Some(Trim(token[..p]));
        target := Trim(token[p + 1..]);
      }
      var parsed := ParseInt32(target);
      ParseTokenSteps(token, p, cond, target, parsed);
      ParseTokensSnoc(tokens, i);
      if parsed.Some? {
        res := res + [Link(parsed.value, cond)];
      }
    }
    assert tokens[..|tokens|] == tokens;
  }

  /** `ParseToken`, spelled out in the order the loop body computes it. */
  lemma ParseTokenSteps(token: String, p: int, cond: Option<String>, target: String, parsed: Option<int>)
    requires p == IndexOf(token, ':')
    requires cond == if p > 0 then Some(Trim(token[..p])) else None
    requires target == if p > 0 then Trim(token[p + 1..]) else token
    requires parsed == ParseInt32(target)
    ensures ParseToken(token) == if parsed.Some? then Some(Link(parsed.value, cond)) else None
  {
  }

  lemma ParseTokensSnoc(tokens: seq<String>, i: nat)
    requires i < |tokens|
    ensures ParseTokens(tokens[..i + 1]) ==
      match ParseToken(tokens[i])
      case Some(l) => ParseTokens(tokens[..i]) + [l]
      case None => ParseTokens(tokens[..i])
  {
    assert tokens[..i + 1][..i] == tokens[..i];
    assert tokens[..i + 1][i] == tokens[i];
  }

  /** An absent or blank successor string has no successors. */
  lemma BlankHasNoLinks(nextWorkflows: Option<String>)
    requires IsNullOrWhiteSpace(nextWorkflows)
    ensures Tokens(nextWorkflows) == []
    ensures NextLinks(nextWorkflows) == []
  {
    var s := nextWorkflows.GetOr("");
    TrimmedEnds(s);
    assert Trim(s) == [];
    assert SplitOn([], ';') == [[]];
    assert Trim([]) == [];
  }

  /** Parsing is entry by entry: the links of a concatenation of entry lists
      are the concatenation of their links. */
  lemma {:induction false} FilterMapAppend<X, Y>(a: seq<X>, b: seq<X>, f: X -> Option<Y>)
    ensures FilterMap(a + b, f) == FilterMap(a, f) + FilterMap(b, f)
    decreases |b|
  {
    if |b| == 0 {
      assert a + b == a;
    } else {
      var b' := b[..|b| - 1];
      assert (a + b)[..|a + b| - 1] == a + b';
      assert (a + b)[|a + b| - 1] == b[|b| - 1];
      FilterMapAppend(a, b', f);
      match f(b[|b| - 1])
      case Some(y) =>
        assert FilterMap(b, f) == FilterMap(b', f) + [y];
        assert FilterMap(a + b, f) == FilterMap(a + b', f) + [y];
      case None =>
    }
  }

  /** A value is produced exactly when some element maps to it. */
  lemma {:induction false} FilterMapMembership<X, Y>(xs: seq<X>, f: X -> Option<Y>, y: Y)
    ensures y in FilterMap(xs, f) <==> exists k :: 0 <= k < |xs| && f(xs[k]) == Some(y)
  {
    if |xs| > 0 {
      var front := xs[..|xs| - 1];
      FilterMapMembership(front, f, y);
      if exists k :: 0 <= k < |xs| && f(xs[k]) == Some(y) {
        var k :| 0 <= k < |xs| && f(xs[k]) == Some(y);
        if k < |front| { assert front[k] == xs[k]; }
      }
      if exists k :: 0 <= k < |front| && f(front[k]) == Some(y) {
        var k :| 0 <= k < |front| && f(front[k]) == Some(y);
        assert xs[k] == front[k];
      }
    }
  }

  /** A link is produced exactly when some entry parses to it. */
  lemma ParseTokensMembership(tokens: seq<String>, l: Link)
    ensures l in ParseTokens(tokens) <==>
      exists k :: 0 <= k < |tokens| && ParseToken(tokens[k]) == Some(l)
  {
    FilterMapMembership(tokens, ParseToken, l);
  }

  /** A number `int.TryParse` accepts contains no ':'. */
  lemma ParsedNumberHasNoColon(s: String)
    requires ParseInt32(s).Some?
    ensures ':' !in s
  {
    var body := TrimBy(s, IsNumberWhite);
    var o := if |body| > 0 && (body[0] == '-' || body[0] == '+') then 1 else 0;
    assert AllDigits(body[o..]);
    SignedDigitsHaveNoColon(s, o);
  }

  lemma SignedDigitsHaveNoColon(s: String, o: nat)
    requires o <= |TrimBy(s, IsNumberWhite)|
    requires o == 1 ==> TrimBy(s, IsNumberWhite)[0] in "-+"
    requires o <= 1 && AllDigits(TrimBy(s, IsNumberWhite)[o..])
    ensures ':' !in s
  {
    var i := SkipStart(s, IsNumberWhite);
    var j := SkipEnd(s, i, IsNumberWhite);
    var body := s[i..j];
    assert ':' !in body by {
      var ds := body[o..];
      assert ':' !in ds by {
        assert AllDigits(ds);
      }
      assert ':' !in body[..o];
      assert body == body[..o] + ds;
    }
    assert ':' !in s[..i] by {
      assert AllWhite(s[..i], IsNumberWhite);
    }
    assert ':' !in s[j..] by {
      assert AllWhite(s[j..], IsNumberWhite);
    }
    assert s == s[..i] + body + s[j..];
  }

  /** A condition read from an entry is never blank. */
  lemma ParsedConditionNotBlank(token: String, l: Link)
    requires token != [] && Trim(token) == token
    requires ParseToken(token) == Some(l) && l.cond.Some?
    ensures !IsNullOrWhiteSpace(l.cond)
  {
    ParsedTokenShape(token, l);
    var p := IndexOf(token, ':');
    TrimmedEnds(token[..p]);
    assert !IsWhiteSpace(l.cond.value[0]);
  }

  /** What a parsed entry means: it has a condition exactly when it contains
      ':'; the condition is the trimmed, non-empty text before the first
      ':', and the target is the trimmed text after it (or the whole entry
      when there is no condition). */
  lemma ParsedTokenShape(token: String, l: Link)
    requires token != [] && Trim(token) == token
    requires ParseToken(token) == Some(l)
    ensures l.cond.Some? <==> ':' in token
    ensures l.cond.None? ==> ParseInt32(token) == Some(l.peer)
    ensures l.cond.Some? ==>
      var p := IndexOf(token, ':');
      && 0 < p
      && l.cond.value == Trim(token[..p])
      && l.cond.value != []
      && ':' !in l.cond.value
      && ParseInt32(Trim(token[p + 1..])) == Some(l.peer)
  {
    var p := IndexOf(token, ':');
    TrimmedEnds(token);
    if p == 0 {
      ParsedNumberHasNoColon(token);
      assert false;
    }
    if p > 0 {
      var before := token[..p];
      TrimmedEnds(before);
      assert !IsWhiteSpace(before[0]);
      assert !AllWhite(before, IsWhiteSpace);
      var cond := Trim(before);
      TrimSlice(before);
      assert ':' !in before;
    }
  }

  /** An entry that starts with ':' is dropped (`":2"`). */
  lemma LeadingColonDropped(token: String)
    requires token != [] && token[0] == ':'
    ensures ParseToken(token) == None
  {
    assert IndexOf(token, ':') == 0;
    if ParseInt32(token).Some? {
      ParsedNumberHasNoColon(token);
    }
  }

  /** An entry with a second ':' after the first is dropped (`"a:3:4"`). */
  lemma SecondColonDropped(token: String)
    requires IndexOf(token, ':') > 0
    requires ':' in token[IndexOf(token, ':') + 1..]
    ensures ParseToken(token) == None
  {
    var p := IndexOf(token, ':');
    var rest := token[p + 1..];
    NonWhiteKeptByTrim(rest, ':');
    if ParseInt32(Trim(rest)).Some? {
      ParsedNumberHasNoColon(Trim(rest));
    }
  }

  /** Trimming keeps every character that is not white space. */
  lemma NonWhiteKeptByTrim(s: String, c: char)
    requires c in s && !IsWhiteSpace(c)
    ensures c in Trim(s)
  {
    var i := SkipStart(s, IsWhiteSpace);
    var j := SkipEnd(s, i, IsWhiteSpace);
    assert c !in s[..i] && c !in s[j..];
    assert s == s[..i] + s[i..j] + s[j..];
  }

  /** A link written back in the successor notation. */
  function EncodeLink(l: Link): String {
    match l.cond
    case None => IntToString(l.peer)
    case Some(c) => c + ":" + IntToString(l.peer)
  }

  /** A successor string listing `links` in order. */
  function Encode(links: seq<Link>): String {
    JoinWith(seq(|links|, k requires 0 <= k < |links| => EncodeLink(links[k])), ';')
  }

  /** A link the notation can carry: a 32-bit target and, if there is one, a
      condition that is non-empty, has no white space at either end and
      contains neither ':' nor ';'. */
  predicate Encodable(l: Link) {
    && InInt32(l.peer)
    && (l.cond.Some? ==>
         var c := l.cond.value;
         c != [] && ':' !in c && ';' !in c && !IsWhiteSpace(c[0]) && !IsWhiteSpace(c[|c| - 1]))
  }

  /** One encoded link is a well-formed entry that parses back to the link. */
  lemma EncodeLinkParses(l: Link)
    requires Encodable(l)
    ensures var t := EncodeLink(l);
      t != [] && ';' !in t && !IsWhiteSpace(t[0]) && !IsWhiteSpace(t[|t| - 1])
      && ParseToken(t) == Some(l)
  {
    match l.cond
    case None => BareEntryParses(l.peer);
    case Some(c) => ConditionalEntryParses(c, l.peer);
  }

  lemma BareEntryParses(n: int)
    requires InInt32(n)
    ensures var t := IntToString(n);
      t != [] && ';' !in t && !IsWhiteSpace(t[0]) && !IsWhiteSpace(t[|t| - 1])
      && ParseToken(t) == Some(Link(n, None))
  {
    var t := IntToString(n);
    ParseIntToString(n);
    ParseTokenSteps(t, -1, None, t, Some(n));
  }

  lemma ConditionalEntryParses(c: String, n: int)
    requires InInt32(n)
    requires c != [] && ':' !in c && ';' !in c && !IsWhiteSpace(c[0]) && !IsWhiteSpace(c[|c| - 1])
    ensures var t := c + ":" + IntToString(n);
      t != [] && ';' !in t && !IsWhiteSpace(t[0]) && !IsWhiteSpace(t[|t| - 1])
      && ParseToken(t) == Some(Link(n, Some(c)))
  {
    var d := IntToString(n);
    var t := c + ":" + d;
    ColonSplits(c, d);
    TrimUnchanged(c);
    TrimUnchanged(d);
    ParseIntToString(n);
    ParseTokenSteps(t, |c|, Some(c), d, Some(n));
  }

  /** The first ':' of `c:d` is the one after `c`. */
  lemma ColonSplits(c: String, d: String)
    requires ':' !in c && ';' !in c && ';' !in d && d != []
    ensures var t := c + ":" + d;
      && IndexOf(t, ':') == |c| && t[..|c|] == c && t[|c| + 1..] == d
      && ';' !in t && t[|t| - 1] == d[|d| - 1]
  {
    var t := c + ":" + d;
    assert t[..|c|] == c;
    assert t[|c|] == ':';
    assert t[|c| + 1..] == d;
  }

  /** A join of non-empty pieces starts with the first piece's first
      character and ends with the last piece's last character. */
  lemma {:induction false} JoinEnds(pieces: seq<String>, sep: char)
    requires |pieces| > 0
    requires forall k :: 0 <= k < |pieces| ==> pieces[k] != []
    ensures var s := JoinWith(pieces, sep);
      s != [] && s[0] == pieces[0][0] && s[|s| - 1] == pieces[|pieces| - 1][|pieces[|pieces| - 1]| - 1]
  {
    if |pieces| > 1 {
      JoinEnds(pieces[1..], sep);
    }
  }

  /** Entries that are already trimmed and non-empty are kept as they are. */
  lemma {:induction false} NonEmptyTrimmedKeeps(pieces: seq<String>)
    requires forall k :: 0 <= k < |pieces| ==> pieces[k] != [] && Trim(pieces[k]) == pieces[k]
    ensures NonEmptyTrimmed(pieces) == pieces
  {
    if |pieces| > 0 {
      NonEmptyTrimmedKeeps(pieces[1..]);
    }
  }

  /** Where `f` accepts every element, `FilterMap` is a plain map. */
  lemma {:induction false} FilterMapAllAccepted<X, Y>(xs: seq<X>, f: X -> Option<Y>, ys: seq<Y>)
    requires |xs| == |ys|
    requires forall k :: 0 <= k < |xs| ==> f(xs[k]) == Some(ys[k])
    ensures FilterMap(xs, f) == ys
  {
    if |xs| > 0 {
      var n := |xs| - 1;
      FilterMapAllAccepted(xs[..n], f, ys[..n]);
      assert ys == ys[..n] + [ys[n]];
    }
  }

  /** Writing links in the successor notation and parsing the text gives the
      same links in the same order. */
  lemma RoundTrip(links: seq<Link>)
    requires forall k :: 0 <= k < |links| ==> Encodable(links[k])
    ensures NextLinks(Some(Encode(links))) == links
  {
    var pieces := seq(|links|, k requires 0 <= k < |links| => EncodeLink(links[k]));
    var s := Encode(links);
    EncodedPieces(links, pieces);
    if |links| == 0 {
      BlankHasNoLinks(Some(s));
    } else {
      TokensOfJoin(pieces);
      FilterMapAllAccepted(pieces, ParseToken, links);
    }
  }

  /** Joining well-formed entries with ';' and splitting the text again
      gives the entries back. */
  lemma TokensOfJoin(pieces: seq<String>)
    requires |pieces| > 0
    requires forall k :: 0 <= k < |pieces| ==> pieces[k] != [] && ';' !in pieces[k] && Trim(pieces[k]) == pieces[k]
    requires forall k :: 0 <= k < |pieces| ==>
      pieces[k] != [] && !IsWhiteSpace(pieces[k][0]) && !IsWhiteSpace(pieces[k][|pieces[k]| - 1])
    ensures Tokens(Some(JoinWith(pieces, ';'))) == pieces
  {
    var s := JoinWith(pieces, ';');
    JoinEnds(pieces, ';');
    assert !IsWhiteSpace(s[0]) && !IsWhiteSpace(s[|s| - 1]) by {
      assert !IsWhiteSpace(pieces[0][0]);
      assert !IsWhiteSpace(pieces[|pieces| - 1][|pieces[|pieces| - 1]| - 1]);
    }
    TrimUnchanged(s);
    SplitJoin(pieces, ';');
    NonEmptyTrimmedKeeps(pieces);
  }

  lemma EncodedPieces(links: seq<Link>, pieces: seq<String>)
    requires forall k :: 0 <= k < |links| ==> Encodable(links[k])
    requires |pieces| == |links| && forall k :: 0 <= k < |links| ==> pieces[k] == EncodeLink(links[k])
    ensures forall k :: 0 <= k < |links| ==>
      pieces[k] != [] && ';' !in pieces[k] && Trim(pieces[k]) == pieces[k] && ParseToken(pieces[k]) == Some(links[k])
    ensures forall k :: 0 <= k < |links| ==>
      pieces[k] != [] && !IsWhiteSpace(pieces[k][0]) && !IsWhiteSpace(pieces[k][|pieces[k]| - 1])
  {
    forall k | 0 <= k < |links|
      ensures pieces[k] != [] && ';' !in pieces[k] && Trim(pieces[k]) == pieces[k]
      ensures ParseToken(pieces[k]) == Some(links[k])
      ensures !IsWhiteSpace(pieces[k][0]) && !IsWhiteSpace(pieces[k][|pieces[k]| - 1])
    {
      EncodeLinkParses(links[k]);
      TrimUnchanged(pieces[k]);
    }
  }

  /** The two-entry example `"A:2;B:3"`. */
  lemma ConditionalPairExample()
    ensures NextLinks(Some("A:2;B:3")) == [Link(2, Some("A")), Link(3, Some("B"))]
  {
    var links := [Link(2, Some("A")), Link(3, Some("B"))];
    assert IntToString(2) == "2" && IntToString(3) == "3";
    assert EncodeLink(links[0]) == "A:2" && EncodeLink(links[1]) == "B:3";
    var pieces := seq(|links|, k requires 0 <= k < |links| => EncodeLink(links[k]));
    assert pieces == ["A:2", "B:3"];
    assert JoinWith(pieces, ';') == "A:2" + ";" + JoinWith(["B:3"], ';');
    assert JoinWith(["B:3"], ';') == "B:3";
    var s := Encode(links);
    assert s == "A:2;B:3";
    RoundTrip(links);
    assert NextLinks(Some(s)) == links;
  }

  /** Where each successor comes from: a trimmed, non-empty entry of the
      successor string, free of ';', that parses to it; the successor has a
      condition exactly when its entry contains ':'. */
  lemma NextLinkOrigin(nextWorkflows: Option<String>, l: Link)
    requires l in NextLinks(nextWorkflows)
    ensures exists k ::
      && 0 <= k < |Tokens(nextWorkflows)|
      && Tokens(nextWorkflows)[k] != []
      && Trim(Tokens(nextWorkflows)[k]) == Tokens(nextWorkflows)[k]
      && ';' !in Tokens(nextWorkflows)[k]
      && ParseToken(Tokens(nextWorkflows)[k]) == Some(l)
      && (l.cond.Some? <==> ':' in Tokens(nextWorkflows)[k])
  {
    var tokens := Tokens(nextWorkflows);
    SplitEntriesShape(Trim(nextWorkflows.GetOr("")), ';');
    ParseTokensMembership(tokens, l);
    var k :| 0 <= k < |tokens| && ParseToken(tokens[k]) == Some(l);
    assert IsEntry(tokens[k], ';');
    ParsedTokenShape(tokens[k], l);
  }
}
