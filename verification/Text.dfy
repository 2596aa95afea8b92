/** The few operations of Go's strings and unicode packages that the modelled code uses. */
module Text {
  /** unicode.IsSpace, which strings.TrimSpace and bufio.ScanWords use. */
  predicate IsSpace(c: char) {
    || '\t' <= c <= '\r' || c == ' ' || c == '\U{85}' || c == '\U{A0}' || c == '\U{1680}'
    || '\U{2000}' <= c <= '\U{200A}' || c == '\U{2028}' || c == '\U{2029}' || c == '\U{202F}'
    || c == '\U{205F}' || c == '\U{3000}'
  }

  function TrimLeft(s: string): string {
    if s != "" && IsSpace(s[0]) then TrimLeft(s[1..]) else s
  }

  function TrimRight(s: string): string {
    if s != "" && IsSpace(s[|s| - 1]) then TrimRight(s[..|s| - 1]) else s
  }

  function TrimSpace(s: string): string {
    TrimRight(TrimLeft(s))
  }

  /** unicode.ToLower up to comparison with ASCII: the two non-ASCII letters whose lower
      case is ASCII are included, the other non-ASCII letters are left alone. */
  function LowerChar(c: char): char {
    if 'A' <= c <= 'Z' then (c as int + 32) as char
    else if c == '\U{130}' then 'i'
    else if c == '\U{212A}' then 'k'
    else c
  }

  function ToLower(s: string): (r: string)
    ensures |r| == |s| && forall i :: 0 <= i < |s| ==> r[i] == LowerChar(s[i])
  {
    seq(|s|, i requires 0 <= i < |s| => LowerChar(s[i]))
  }

  function FoldChar(c: char): char {
    if 'A' <= c <= 'Z' then (c as int + 32) as char
    else if c == '\U{17F}' then 's'
    else if c == '\U{212A}' then 'k'
    else c
  }

  /** strings.EqualFold where one side is ASCII. */
  predicate EqualFold(a: string, b: string) {
    |a| == |b| && forall i :: 0 <= i < |a| ==> FoldChar(a[i]) == FoldChar(b[i])
  }

  predicate HasPrefix(s: string, prefix: string) {
    prefix <= s
  }

  predicate HasSuffix(s: string, suffix: string) {
    |s| >= |suffix| && s[|s| - |suffix|..] == suffix
  }

  predicate OccursAt(s: string, sub: string, i: nat) {
    i + |sub| <= |s| && s[i..i + |sub|] == sub
  }

  predicate Contains(s: string, sub: string) {
    exists i :: 0 <= i <= |s| && OccursAt(s, sub, i)
  }

  predicate Lower(c: char) {
    !IsSpace(c) && LowerChar(c) == c
  }

  /** Text without spaces or capitals is left alone by trimming and lowering. */
  lemma PlainTextUnchanged(s: string)
    requires forall i :: 0 <= i < |s| ==> Lower(s[i])
    ensures TrimSpace(s) == s && ToLower(s) == s
  {
    assert s != "" ==> Lower(s[0]) && Lower(s[|s| - 1]);
    assert ToLower(s) == s;
  }

  // ---- What these operations are for ----

  predicate Spaces(s: string) {
    forall i :: 0 <= i < |s| ==> IsSpace(s[i])
  }

  predicate Trimmed(s: string) {
    s != "" ==> !IsSpace(s[0]) && !IsSpace(s[|s| - 1])
  }

  lemma {:induction false} TrimLeftTells(s: string) returns (lead: string)
    ensures Spaces(lead) && s == lead + TrimLeft(s) && (TrimLeft(s) != "" ==> !IsSpace(TrimLeft(s)[0]))
  {
    if s != "" && IsSpace(s[0]) {
      var rest := TrimLeftTells(s[1..]);
      lead := [s[0]] + rest;
    } else {
      lead := "";
    }
  }

  lemma {:induction false} TrimRightTells(s: string) returns (tail: string)
    ensures Spaces(tail) && s == TrimRight(s) + tail
    ensures TrimRight(s) != "" ==> !IsSpace(TrimRight(s)[|TrimRight(s)| - 1]) && TrimRight(s)[0] == s[0]
  {
    if s != "" && IsSpace(s[|s| - 1]) {
      var rest := TrimRightTells(s[..|s| - 1]);
      tail := rest + [s[|s| - 1]];
    } else {
      tail := "";
    }
  }

  /** Trimming takes away the space at both ends and nothing else. */
  lemma {:induction false} TrimTells(s: string)
    ensures Trimmed(TrimSpace(s))
    ensures exists lead, tail :: Spaces(lead) && Spaces(tail) && s == lead + TrimSpace(s) + tail
  {
    var lead := TrimLeftTells(s);
    var tail := TrimRightTells(TrimLeft(s));
    assert s == lead + TrimSpace(s) + tail;
  }

  /** Lowering changes the capitals of the alphabet to its small letters, and no other ASCII. */
  lemma LowerTells(i: nat)
    requires i < 26
    ensures LowerChar("ABCDEFGHIJKLMNOPQRSTUVWXYZ"[i]) == "abcdefghijklmnopqrstuvwxyz"[i]
    ensures forall c: char :: c < '\U{80}' && !('A' <= c <= 'Z') ==> LowerChar(c) == c
  {
  }

  /** Among ASCII texts, equal but for case means equal once lowered. */
  lemma FoldTells(a: string, b: string)
    requires (forall i :: 0 <= i < |a| ==> a[i] < '\U{80}') && (forall i :: 0 <= i < |b| ==> b[i] < '\U{80}')
    ensures EqualFold(a, b) <==> ToLower(a) == ToLower(b)
  {
    forall i | 0 <= i < |a| && a[i] < '\U{80}'
      ensures FoldChar(a[i]) == LowerChar(a[i])
    {
    }
    if ToLower(a) == ToLower(b) {
      forall i | 0 <= i < |a|
        ensures FoldChar(a[i]) == FoldChar(b[i])
      {
        assert ToLower(a)[i] == ToLower(b)[i];
      }
    }
  }

  /** The ASCII space characters are tab, line feed, vertical tab, form feed, carriage return
      and blank. */
  lemma SpaceTells(c: char)
    requires c < '\U{80}'
    ensures IsSpace(c) <==> c as int in {9, 10, 11, 12, 13, 32}
  {
  }

  /** A text ends with another exactly if it is something followed by it. */
  lemma SuffixTells(s: string, suffix: string)
    ensures HasSuffix(s, suffix) <==> exists front :: s == front + suffix
  {
    if HasSuffix(s, suffix) {
      assert s == s[..|s| - |suffix|] + suffix;
    }
  }
}
