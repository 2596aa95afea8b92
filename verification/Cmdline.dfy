/** The kernel command line as the agent reads it (agent/internal/bootcontext/bootcontext.go). */
module Cmdline {
  import opened Text

  type Params = map<string, string>

  predicate HasEquals(tok: string) {
    exists i :: 0 <= i < |tok| && tok[i] == '='
  }

  /** The position of the first '='. */
  function FirstEquals(tok: string): (i: nat)
    requires HasEquals(tok)
    ensures i < |tok| && tok[i] == '=' && forall j :: 0 <= j < i ==> tok[j] != '='
  {
    if tok[0] == '=' then 0
    else
      assert HasEquals(tok[1..]) by {
        var i :| 0 <= i < |tok| && tok[i] == '=';
        assert tok[1..][i - 1] == '=';
      }
      1 + FirstEquals(tok[1..])
  }

  /** What one token sets. */
  function SetToken(m: Params, tok: string): Params {
    if HasEquals(tok) then m[tok[..FirstEquals(tok)] := tok[FirstEquals(tok) + 1..]] else m[tok := ""]
  }

  function SetTokens(m: Params, toks: seq<string>): Params
    decreases |toks|
  {
    if toks == [] then m else SetTokens(SetToken(m, toks[0]), toks[1..])
  }

  // ---- Words ----

  /** The length of the word that `s` begins with. */
  function WordLength(s: string): (n: nat)
    ensures n <= |s| && forall i :: 0 <= i < n ==> !IsSpace(s[i])
    ensures n < |s| ==> IsSpace(s[n])
  {
    if s != "" && !IsSpace(s[0]) then 1 + WordLength(s[1..]) else 0
  }

  /** bufio.ScanWords: the maximal runs of non-space characters. */
  function Words(s: string): seq<string>
    decreases |s|
  {
    if s == "" then []
    else if IsSpace(s[0]) then Words(s[1..])
    else [s[..WordLength(s)]] + Words(s[WordLength(s)..])
  }

  method FindEquals(tok: string) returns (idx: int)
    ensures idx == if HasEquals(tok) then FirstEquals(tok) else -1
  {
    for i := 0 to |tok|
      invariant forall j :: 0 <= j < i ==> tok[j] != '='
    {
      if tok[i] == '=' {
        return i;
      }
    }
    return -1;
  }

  /** The scanner loop. */
  method ParseCmdline(s: string) returns (m: Params)
    ensures m == SetTokens(map[], Words(s))
  {
    m := map[];
    var pos := 0;
    while true
      invariant pos <= |s|
      invariant SetTokens(map[], Words(s)) == SetTokens(m, Words(s[pos..]))
      decreases |s| - pos
    {
      var start := SkipSpace(s, pos);
      if start == |s| {
        return;
      }
      var end := SkipWord(s, start);
      var tok := s[start..end];
      NextWord(s, start, end);
      SetTokensCons(m, tok, Words(s[end..]));
      m := StoreToken(m, tok);
      pos := end;
    }
  }

  method StoreToken(m: Params, tok: string) returns (r: Params)
    ensures r == SetToken(m, tok)
  {
    var idx := FindEquals(tok);
    if idx >= 0 {
      r := m[tok[..idx] := tok[idx + 1..]];
    } else {
      r := m[tok := ""];
    }
  }

  lemma NextWord(s: string, start: nat, end: nat)
    requires start < |s| && !IsSpace(s[start]) && end == start + WordLength(s[start..])
    ensures start < end <= |s| && Words(s[start..]) == [s[start..end]] + Words(s[end..])
  {
    var t := s[start..];
    assert t[0] == s[start];
    assert t[..end - start] == s[start..end] && t[end - start..] == s[end..];
  }

  lemma SetTokensCons(m: Params, tok: string, toks: seq<string>)
    ensures SetTokens(m, [tok] + toks) == SetTokens(SetToken(m, tok), toks)
  {
    assert ([tok] + toks)[1..] == toks;
  }

  method SkipSpace(s: string, pos: nat) returns (start: nat)
    requires pos <= |s|
    ensures pos <= start <= |s| && (start < |s| ==> !IsSpace(s[start]))
    ensures Words(s[start..]) == Words(s[pos..])
  {
    start := pos;
    while start < |s| && IsSpace(s[start])
      invariant pos <= start <= |s|
      invariant Words(s[start..]) == Words(s[pos..])
    {
      assert s[start..][0] == s[start] && s[start..][1..] == s[start + 1..];
      start := start + 1;
    }
  }

  method SkipWord(s: string, start: nat) returns (end: nat)
    requires start <= |s|
    ensures start <= end <= |s| && end == start + WordLength(s[start..])
  {
    end := start;
    while end < |s| && !IsSpace(s[end])
      invariant start <= end <= |s|
      invariant end + WordLength(s[end..]) == start + WordLength(s[start..])
    {
      assert s[end..][0] == s[end] && s[end..][1..] == s[end + 1..];
      end := end + 1;
    }
  }

  // ---- Printing and parsing back ----

  datatype Token = Pair(key: string, value: string) | Bare(word: string) {
    predicate Valid() {
      match this
      case Pair(key, value) => NoSpace(key) && NoSpace(value) && !HasEquals(key)
      case Bare(word) => word != "" && NoSpace(word) && !HasEquals(word)
    }

    function Print(): string {
      match this
      case Pair(key, value) => key + "=" + value
      case Bare(word) => word
    }

    function Key(): string {
      if Pair? then key else word
    }

    function Value(): string {
      if Pair? then value else ""
    }
  }

  predicate NoSpace(s: string) {
    forall i :: 0 <= i < |s| ==> !IsSpace(s[i])
  }

  predicate AllSpace(s: string) {
    forall i :: 0 <= i < |s| ==> IsSpace(s[i])
  }

  /** A token and the space printed after it. */
  datatype Item = Item(token: Token, space: string)

  /** Space between tokens is not empty; after the last it may be. */
  predicate ValidItems(items: seq<Item>) {
    forall i :: 0 <= i < |items| ==>
      items[i].token.Valid() && AllSpace(items[i].space) && (i < |items| - 1 ==> items[i].space != "")
  }

  function Print(items: seq<Item>): string {
    if items == [] then "" else items[0].token.Print() + items[0].space + Print(items[1..])
  }

  /** The last occurrence of a key wins; a bare word has the empty value. */
  function LastWins(items: seq<Item>): Params {
    if items == [] then map[]
    else
      var last := items[|items| - 1].token;
      LastWins(items[..|items| - 1])[last.Key() := last.Value()]
  }

  lemma {:induction false} WordLengthIs(word: string, rest: string)
    requires NoSpace(word) && (rest != "" ==> IsSpace(rest[0]))
    ensures WordLength(word + rest) == |word|
  {
    if word == "" {
      assert word + rest == rest;
    } else {
      assert (word + rest)[1..] == word[1..] + rest;
      WordLengthIs(word[1..], rest);
    }
  }

  lemma PrintedToken(t: Token)
    requires t.Valid()
    ensures t.Print() != "" && NoSpace(t.Print())
    ensures forall m: Params :: SetToken(m, t.Print()) == m[t.Key() := t.Value()]
  {
    assert !IsSpace('=');
    if t.Pair? {
      var p := t.Print();
      assert p[|t.key|] == '=' && HasEquals(p);
      assert forall i :: 0 <= i < |t.key| ==> p[i] == t.key[i] && t.key[i] != '=';
      assert FirstEquals(p) == |t.key|;
      assert p[..|t.key|] == t.key && p[|t.key| + 1..] == t.value;
    }
  }

  lemma {:induction false} LeadingSpace(space: string, rest: string)
    requires AllSpace(space)
    ensures Words(space + rest) == Words(rest)
  {
    if space == "" {
      assert space + rest == rest;
    } else {
      assert (space + rest)[1..] == space[1..] + rest;
      LeadingSpace(space[1..], rest);
    }
  }

  lemma {:induction false} LeadingWord(word: string, rest: string)
    requires word != "" && NoSpace(word) && (rest != "" ==> IsSpace(rest[0]))
    ensures Words(word + rest) == [word] + Words(rest)
  {
    WordLengthIs(word, rest);
    assert (word + rest)[..|word|] == word && (word + rest)[|word|..] == rest;
  }

  function Texts(items: seq<Item>): seq<string> {
    if items == [] then [] else [items[0].token.Print()] + Texts(items[1..])
  }

  lemma {:induction false} WordsOfPrint(items: seq<Item>)
    requires ValidItems(items)
    ensures Words(Print(items)) == Texts(items)
    ensures Print(items) != "" <==> items != []
  {
    if items != [] {
      var word := items[0].token.Print();
      var space := items[0].space;
      var rest := Print(items[1..]);
      WordsOfPrint(items[1..]);
      PrintedToken(items[0].token);
      assert word + space + rest == word + (space + rest);
      assert |items| > 1 ==> space != "";
      LeadingWord(word, space + rest);
      LeadingSpace(space, rest);
    }
  }

  lemma {:induction false} SetTokensSnoc(m: Params, toks: seq<string>, tok: string)
    ensures SetTokens(m, toks + [tok]) == SetToken(SetTokens(m, toks), tok)
    decreases |toks|
  {
    if toks == [] {
      assert [tok][1..] == [];
    } else {
      assert (toks + [tok])[1..] == toks[1..] + [tok];
      SetTokensSnoc(SetToken(m, toks[0]), toks[1..], tok);
    }
  }

  lemma {:induction false} TextsSnoc(items: seq<Item>, x: Item)
    ensures Texts(items + [x]) == Texts(items) + [x.token.Print()]
  {
    if items == [] {
      assert [x][1..] == [];
    } else {
      assert (items + [x])[1..] == items[1..] + [x];
      TextsSnoc(items[1..], x);
    }
  }

  lemma {:induction false} TextsLastWin(items: seq<Item>)
    requires forall i :: 0 <= i < |items| ==> items[i].token.Valid()
    ensures SetTokens(map[], Texts(items)) == LastWins(items)
    decreases |items|
  {
    if items != [] {
      var n := |items| - 1;
      assert items == items[..n] + [items[n]];
      TextsSnoc(items[..n], items[n]);
      TextsLastWin(items[..n]);
      SetTokensSnoc(map[], Texts(items[..n]), items[n].token.Print());
      PrintedToken(items[n].token);
    }
  }

  /** Whatever list of pairs and bare words is printed, with whatever space before, between
      and after, parsing yields exactly the last value of each key. */
  lemma RoundTrip(lead: string, items: seq<Item>)
    requires AllSpace(lead) && ValidItems(items)
    ensures SetTokens(map[], Words(lead + Print(items))) == LastWins(items)
  {
    LeadingSpace(lead, Print(items));
    WordsOfPrint(items);
    TextsLastWin(items);
  }
}
