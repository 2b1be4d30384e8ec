/** The path scanner and parser of vfs.cpp: tokens, the branches a path is parsed into,
    and the round trip with printed paths. */
module PathScanner {

  predicate IsIdentifier(c: char) {
    c == '_' || c == '.' || '0' <= c <= '9' || 'a' <= c <= 'z' || 'A' <= c <= 'Z' || c == '$'
  }

  // ---------------------------------------------------------------- tokens

  /** First position from `i` on that holds no identifier character. */
  function NameEnd(s: string, i: nat): (k: nat)
    requires i <= |s|
    ensures i <= k <= |s|
    decreases |s| - i
  {
    if i < |s| && IsIdentifier(s[i]) then NameEnd(s, i + 1) else i
  }

  /** First position from `i` on that holds no slash. */
  function SlashEnd(s: string, i: nat): (k: nat)
    requires i <= |s|
    ensures i <= k <= |s|
    decreases |s| - i
  {
    if i < |s| && s[i] == '/' then SlashEnd(s, i + 1) else i
  }

  /** The token found from position `i` on, and the position after it. Characters that
      start no token are skipped; a NUL ends the scan where it stands. */
  function Token(s: string, i: nat): (r: (string, nat))
    requires i <= |s|
    ensures i <= r.1 <= |s|
    ensures r.0 != "" ==> i < r.1
    decreases |s| - i
  {
    if i == |s| || s[i] == '\0' then ("", i)
    else if IsIdentifier(s[i]) then (s[i..NameEnd(s, i)], NameEnd(s, i))
    else if s[i] == '/' then ("/", SlashEnd(s, i + 1))
    else if s[i] == ':' then (":", SlashEnd(s, i + 1))
    else Token(s, i + 1)
  }

  /** The next token and the text left after it. */
  function Scan(s: string): (r: (string, string))
    ensures |r.1| <= |s|
    ensures r.0 != "" ==> |r.1| < |s|
  {
    var (token, k) := Token(s, 0);
    (token, s[k..])
  }

  /** The branches of a path: tokens separated by slashes, up to the first token that is
      followed by something else. */
  function Branches(s: string): seq<string>
    decreases |s|
  {
    var (token, rest) := Scan(s);
    var (separator, rest') := Scan(rest);
    (if token != "" then [token] else []) + (if separator == "/" then Branches(rest') else [])
  }

  /** `Branches` in terms of the two tokens it reads. */
  lemma BranchesStep(s: string, token: string, rest: string, separator: string, rest': string)
    requires Scan(s) == (token, rest) && Scan(rest) == (separator, rest')
    ensures Branches(s) == (if token != "" then [token] else []) + (if separator == "/" then Branches(rest') else [])
  {
    hide Scan;
  }

  lemma BranchesAfter(branches: seq<string>, s: string, token: string, rest: string, separator: string, rest': string)
    requires Scan(s) == (token, rest) && Scan(rest) == (separator, rest')
    ensures var r := if token != "" then branches + [token] else branches;
            branches + Branches(s) == if separator == "/" then r + Branches(rest') else r
  {
    hide *;
    BranchesStep(s, token, rest, separator, rest');
    var tail := if separator == "/" then Branches(rest') else [];
    assert branches + ([token] + tail) == (branches + [token]) + tail;
    assert branches + ([] + tail) == branches + tail;
    assert branches + [] == branches;
  }

  // ---------------------------------------------------------------- the code

  /** `c_str()[i]` */
  function CharAt(s: string, i: nat): char {
    if i < |s| then s[i] else '\0'
  }

  class Scanner {
    var text: string

    constructor ()
      ensures text == ""
    {
      text := "";
    }

    method SetString(s: string)
      modifies this
      ensures text == s
    {
      text := s;
    }

    /** The identifier loop. */
    method ReadName(start: nat) returns (token: string, length: nat)
      requires start <= |text|
      ensures length == NameEnd(text, start) && token == text[start..length]
    {
      length := start;
      token := "";
      while IsIdentifier(CharAt(text, length))
        invariant start <= length <= |text|
        invariant token == text[start..length]
        invariant NameEnd(text, start) == NameEnd(text, length)
        decreases |text| - length
      {
        token := token + [text[length]];
        length := length + 1;
      }
    }

    /** The loop over the slashes after a slash or colon. */
    method ReadSlashes(start: nat) returns (length: nat)
      requires start <= |text|
      ensures length == SlashEnd(text, start)
    {
      length := start;
      while CharAt(text, length) == '/'
        invariant start <= length <= |text|
        invariant SlashEnd(text, start) == SlashEnd(text, length)
        decreases |text| - length
      {
        length := length + 1;
      }
    }

    method ScanToken() returns (token: string)
      modifies this
      ensures (token, text) == Scan(old(text))
    {
      hide NameEnd, SlashEnd;
      var length := 0;
      token := "";
      if |text| == 0 {
        return;
      }
      while true
        invariant 0 <= length <= |text| && token == ""
        invariant Token(text, 0) == Token(text, length)
        decreases |text| - length
      {
        var lookahead := CharAt(text, length);
        if IsIdentifier(lookahead) {
          token, length := ReadName(length);
          break;
        }
        if lookahead == '/' || lookahead == ':' {
          token := [lookahead];
          length := ReadSlashes(length + 1);
          break;
        }
        if lookahead == '\0' {
          break;
        }
        length := length + 1;
      }
      text := text[length..];
    }

    /** `VirtualFilesystem::parse`: appends the branches of the remaining text. */
    method Parse(branches: seq<string>) returns (r: seq<string>)
      modifies this
      ensures r == branches + Branches(old(text))
      decreases |text|
    {
      hide *;
      BranchesAfter(branches, text, Scan(text).0, Scan(text).1, Scan(Scan(text).1).0, Scan(Scan(text).1).1);
      r := branches;
      var i := ScanToken();
      if i == ".." || i == "." {
        r := r + [i];
        var separator := ScanToken();
        if separator != "/" {
          return;
        }
        r := Parse(r);
        return;
      }
      if i != "" {
        r := r + [i];
      }
      i := ScanToken();
      if i == "/" {
        r := Parse(r);
      }
    }
  }

  // ---------------------------------------------------------------- printed paths

  /** A name the scanner reads back as one token; `.` and `..` are names too. */
  predicate IsName(name: string) {
    name != "" && forall i :: 0 <= i < |name| ==> IsIdentifier(name[i])
  }

  function Slashes(n: nat): (s: string)
    ensures |s| == n && forall i :: 0 <= i < n ==> s[i] == '/'
  {
    seq(n, _ => '/')
  }

  /** Each name followed by its slashes. */
  function Print(names: seq<string>, slashes: seq<nat>): string
    requires |names| == |slashes|
  {
    if names == [] then "" else names[0] + Slashes(slashes[0]) + Print(names[1..], slashes[1..])
  }

  lemma {:induction false} NameEndIs(s: string, i: nat, k: nat)
    requires i <= k <= |s|
    requires forall j :: i <= j < k ==> IsIdentifier(s[j])
    requires k < |s| ==> !IsIdentifier(s[k])
    ensures NameEnd(s, i) == k
    decreases k - i
  {
    if i < k { NameEndIs(s, i + 1, k); }
  }

  lemma {:induction false} SlashEndIs(s: string, i: nat, k: nat)
    requires i <= k <= |s|
    requires forall j :: i <= j < k ==> s[j] == '/'
    requires k < |s| ==> s[k] != '/'
    ensures SlashEnd(s, i) == k
    decreases k - i
  {
    if i < k { SlashEndIs(s, i + 1, k); }
  }

  lemma ScanName(name: string, rest: string)
    requires IsName(name) && (rest != "" ==> !IsIdentifier(rest[0]))
    ensures Scan(name + rest) == (name, rest)
  {
    NameEndIs(name + rest, 0, |name|);
  }

  lemma ScanSlashes(n: nat, rest: string)
    requires n > 0 && (rest != "" ==> IsIdentifier(rest[0]))
    ensures Scan(Slashes(n) + rest) == ("/", rest)
  {
    SlashEndIs(Slashes(n) + rest, 1, n);
  }

  lemma BranchesOfNothing()
    ensures Scan("") == ("", "")
    ensures Branches("") == []
  {
  }

  /** Printed paths start with the first character of their first name. */
  lemma PrintStarts(names: seq<string>, slashes: seq<nat>)
    requires |names| == |slashes| > 0 && IsName(names[0])
    ensures Print(names, slashes) != "" && IsIdentifier(Print(names, slashes)[0])
    ensures Print(names, slashes) == names[0] + (Slashes(slashes[0]) + Print(names[1..], slashes[1..]))
  {
    var tail := Print(names[1..], slashes[1..]);
    assert (names[0] + Slashes(slashes[0])) + tail == names[0] + (Slashes(slashes[0]) + tail);
    assert Print(names, slashes)[0] == names[0][0];
  }

  lemma SlashesThenName(n: nat, rest: string)
    requires n > 0 || rest == ""
    ensures Slashes(n) + rest != "" ==> !IsIdentifier((Slashes(n) + rest)[0])
    ensures n == 0 ==> Slashes(n) + rest == ""
  {
  }

  /** Parsing undoes printing: a non-empty list of names joined by one or more slashes,
      with any number of slashes at the end, parses to exactly that list. */
  lemma {:induction false} ParsePrint(names: seq<string>, slashes: seq<nat>)
    requires |names| == |slashes| > 0
    requires forall i :: 0 <= i < |names| ==> IsName(names[i])
    requires forall i :: 0 <= i < |names| - 1 ==> slashes[i] > 0
    ensures Branches(Print(names, slashes)) == names
    decreases |names|
  {
    hide Scan, Branches, Slashes, IsIdentifier, IsName;
    var n := slashes[0];
    var tail := Print(names[1..], slashes[1..]);
    PrintStarts(names, slashes);
    SlashesThenName(n, tail);
    ScanName(names[0], Slashes(n) + tail);
    NameIsNotEmpty(names[0]);
    if |names| > 1 {
      PrintStarts(names[1..], slashes[1..]);
      ScanSlashes(n, tail);
      BranchesStep(Print(names, slashes), names[0], Slashes(n) + tail, "/", tail);
      ParsePrint(names[1..], slashes[1..]);
    } else {
      BranchesOfNothing();
      if n > 0 {
        ScanSlashes(n, tail);
        BranchesStep(Print(names, slashes), names[0], Slashes(n) + tail, "/", tail);
      } else {
        BranchesStep(Print(names, slashes), names[0], Slashes(n) + tail, "", "");
      }
      assert names == [names[0]] + [];
    }
    assert names == [names[0]] + names[1..];
  }

  lemma NameIsNotEmpty(name: string)
    requires IsName(name)
    ensures name != ""
  {
  }

  lemma {:induction false} TokenIsName(s: string, i: nat)
    requires i <= |s|
    ensures var t := Token(s, i).0; t == "" || t == "/" || t == ":" || IsName(t)
    decreases |s| - i
  {
    if i < |s| && s[i] != '\0' {
      if IsIdentifier(s[i]) {
        NamesAreIdentifiers(s, i);
      } else if s[i] != '/' && s[i] != ':' {
        TokenIsName(s, i + 1);
      }
    }
  }

  lemma {:induction false} NamesAreIdentifiers(s: string, i: nat)
    requires i <= |s|
    ensures forall j :: i <= j < NameEnd(s, i) ==> IsIdentifier(s[j])
    ensures i < |s| && IsIdentifier(s[i]) ==> i < NameEnd(s, i)
    decreases |s| - i
  {
    if i < |s| && IsIdentifier(s[i]) {
      NamesAreIdentifiers(s, i + 1);
    }
  }

  /** Whatever the text, every branch is a name, or a slash or colon taken for one. */
  lemma {:induction false} BranchesAreTokens(s: string)
    ensures forall b :: b in Branches(s) ==> b == "/" || b == ":" || IsName(b)
    decreases |s|
  {
    TokenIsName(s, 0);
    var (token, rest) := Scan(s);
    var (separator, rest') := Scan(rest);
    if separator == "/" {
      BranchesAreTokens(rest');
    }
  }

  lemma BranchesNotEmpty(s: string)
    ensures forall i :: 0 <= i < |Branches(s)| ==> Branches(s)[i] != ""
  {
    BranchesAreTokens(s);
    forall i | 0 <= i < |Branches(s)| ensures Branches(s)[i] != "" {
      assert Branches(s)[i] in Branches(s);
    }
  }

  /** A leading slash is itself taken as a branch, and the whole path after it is dropped. */
  lemma LeadingSlash(n: nat, names: seq<string>, slashes: seq<nat>)
    requires n > 0 && |names| == |slashes| > 0 && IsName(names[0])
    requires slashes[0] == 0 ==> |names| == 1
    ensures Branches(Slashes(n) + Print(names, slashes)) == ["/"]
  {
    hide Scan, Branches, Slashes, IsIdentifier, IsName;
    var tail := Print(names[1..], slashes[1..]);
    PrintStarts(names, slashes);
    ScanSlashes(n, Print(names, slashes));
    SlashesThenName(slashes[0], tail);
    ScanName(names[0], Slashes(slashes[0]) + tail);
    NameIsNotSlash(names[0]);
    BranchesStep(Slashes(n) + Print(names, slashes), "/", Print(names, slashes), names[0], Slashes(slashes[0]) + tail);
  }

  lemma NameIsNotSlash(name: string)
    requires IsName(name)
    ensures name != "/"
  {
    assert IsIdentifier(name[0]);
  }

  // ---------------------------------------------------------------- the alphabet

  /** The characters names are made of, written out. */
  predicate InAlphabet(c: char) {
    c in "abcdefghijklmnopqrstuvwxyz" || c in "ABCDEFGHIJKLMNOPQRSTUVWXYZ" || c in "0123456789" || c in "_.$"
  }

  lemma IdentifiersAre(c: char)
    ensures IsIdentifier(c) <==> InAlphabet(c)
  {
    LowerCase(c);
    UpperCase(c);
    Digits(c);
  }

  lemma LowerCase(c: char)
    ensures c in "abcdefghijklmnopqrstuvwxyz" <==> 'a' <= c <= 'z'
  {
    var s := "abcdefghijklmnopqrstuvwxyz";
    if 'a' <= c <= 'z' {
      assert s[(c - 'a') as int] == c;
    }
  }

  lemma UpperCase(c: char)
    ensures c in "ABCDEFGHIJKLMNOPQRSTUVWXYZ" <==> 'A' <= c <= 'Z'
  {
    var s := "ABCDEFGHIJKLMNOPQRSTUVWXYZ";
    if 'A' <= c <= 'Z' {
      assert s[(c - 'A') as int] == c;
    }
  }

  lemma Digits(c: char)
    ensures c in "0123456789" <==> '0' <= c <= '9'
  {
    var s := "0123456789";
    if '0' <= c <= '9' {
      assert s[(c - '0') as int] == c;
    }
  }

  /** A text over the alphabet is one branch, itself. */
  lemma NameIsOneBranch(s: string)
    requires s != "" && forall i :: 0 <= i < |s| ==> InAlphabet(s[i])
    ensures Branches(s) == [s]
  {
    forall i | 0 <= i < |s| ensures IsIdentifier(s[i]) {
      IdentifiersAre(s[i]);
    }
    hide IsIdentifier, InAlphabet, Branches, Scan;
    assert s + "" == s;
    ScanName(s, "");
    BranchesOfNothing();
    BranchesStep(s, s, "", "", "");
    assert [s] + [] == [s];
  }

  /** No other character but a slash or colon on its own gets into a branch. */
  lemma BranchCharacters(s: string, b: string, i: nat)
    requires b in Branches(s) && i < |b|
    ensures InAlphabet(b[i]) || b == "/" || b == ":"
  {
    hide Branches, IsIdentifier;
    BranchesAreTokens(s);
    IdentifiersAre(b[i]);
  }

  // ---------------------------------------------------------------- relative paths

  /** The scanner skips it. */
  predicate IsBlank(c: char) {
    !IsIdentifier(c) && c != '/' && c != ':' && c != '\0'
  }

  /** The last position before `i` that holds no blank, or -1. */
  function Prev(s: string, i: nat): (p: int)
    requires i <= |s|
    ensures -1 <= p < i
    ensures p >= 0 ==> !IsBlank(s[p])
    ensures forall j :: p < j < i ==> IsBlank(s[j])
  {
    if i == 0 then -1 else if IsBlank(s[i - 1]) then Prev(s, i - 1) else i - 1
  }

  /** A separator with no name before it: at the start, or after slashes it does not
      continue. */
  predicate Misplaced(s: string, i: nat)
    requires i < |s|
  {
    var p := Prev(s, i);
    && (s[i] == '/' || s[i] == ':')
    && (p == -1 || (s[p] == '/' && !(s[i] == '/' && p == i - 1)))
  }

  /** The parser reads nothing further: a NUL, a colon, or a second name with only blanks
      before it. */
  predicate Stops(s: string, i: nat)
    requires i < |s|
  {
    var p := Prev(s, i);
    || s[i] == '\0' || s[i] == ':'
    || (IsIdentifier(s[i]) && 0 <= p < i - 1 && IsIdentifier(s[p]))
  }

  /** Every misplaced separator comes after the point where the parser stops. */
  ghost predicate RelativePath(s: string) {
    forall i :: 0 <= i < |s| && Misplaced(s, i) ==> exists j :: 0 <= j < i && Stops(s, j)
  }

  /** First position from `i` on that holds no blank. */
  function Skip(s: string, i: nat): (k: nat)
    requires i <= |s|
    ensures i <= k <= |s|
    ensures forall j :: i <= j < k ==> IsBlank(s[j])
    ensures k < |s| ==> !IsBlank(s[k])
    decreases |s| - i
  {
    if i < |s| && IsBlank(s[i]) then Skip(s, i + 1) else i
  }

  /** The token is the one that starts at the first position that holds no blank. */
  lemma {:induction false} TokenSkips(s: string, i: nat)
    requires i <= |s|
    ensures Token(s, i) == Token(s, Skip(s, i))
    decreases |s| - i
  {
    if i < |s| && IsBlank(s[i]) {
      TokenSkips(s, i + 1);
    }
  }

  lemma {:induction false} SlashEndSlashes(s: string, i: nat)
    requires i <= |s|
    ensures forall j :: i <= j < SlashEnd(s, i) ==> s[j] == '/'
    ensures SlashEnd(s, i) < |s| ==> s[SlashEnd(s, i)] != '/'
    decreases |s| - i
  {
    if i < |s| && s[i] == '/' {
      SlashEndSlashes(s, i + 1);
    }
  }

  lemma {:induction false} NameEndShift(s: string, c: nat, i: nat)
    requires c + i <= |s|
    ensures NameEnd(s[c..], i) == NameEnd(s, c + i) - c
    decreases |s| - i
  {
    if c + i < |s| && IsIdentifier(s[c + i]) {
      NameEndShift(s, c, i + 1);
    }
  }

  lemma {:induction false} SlashEndShift(s: string, c: nat, i: nat)
    requires c + i <= |s|
    ensures SlashEnd(s[c..], i) == SlashEnd(s, c + i) - c
    decreases |s| - i
  {
    if c + i < |s| && s[c + i] == '/' {
      SlashEndShift(s, c, i + 1);
    }
  }

  lemma {:induction false} TokenShift(s: string, c: nat, i: nat)
    requires c + i <= |s|
    ensures Token(s[c..], i) == (Token(s, c + i).0, Token(s, c + i).1 - c)
    decreases |s| - i
  {
    if c + i < |s| && s[c + i] != '\0' {
      if IsIdentifier(s[c + i]) {
        NameEndShift(s, c, i);
        assert s[c..][i..NameEnd(s[c..], i)] == s[c + i..NameEnd(s, c + i)];
      } else if s[c + i] == '/' || s[c + i] == ':' {
        SlashEndShift(s, c, i + 1);
      } else {
        TokenShift(s, c, i + 1);
      }
    }
  }

  /** `Branches` in terms of the two tokens it reads from the text. */
  lemma BranchesOf(s: string)
    ensures var (token, k) := Token(s, 0);
            var (separator, n) := Token(s, k);
            Branches(s) == (if token != "" then [token] else []) + (if separator == "/" then Branches(s[n..]) else [])
  {
    hide Token, Scan, Branches;
    var (token, k) := Token(s, 0);
    var (separator, n) := Token(s, k);
    ScanFrom(s, 0);
    ScanFrom(s, k);
    assert s[0..] == s;
    BranchesStep(s, token, s[k..], separator, s[n..]);
  }

  lemma ScanFrom(s: string, c: nat)
    requires c <= |s|
    ensures Scan(s[c..]) == (Token(s, c).0, s[Token(s, c).1..])
  {
    hide Token;
    TokenShift(s, c, 0);
    assert s[c..][Token(s, c).1 - c..] == s[Token(s, c).1..];
  }

  lemma {:induction false} PrevIs(s: string, i: nat, p: int)
    requires i <= |s| && -1 <= p < i && (p >= 0 ==> !IsBlank(s[p]))
    requires forall j :: p < j < i ==> IsBlank(s[j])
    ensures Prev(s, i) == p
    decreases i
  {
    if p < i - 1 {
      PrevIs(s, i - 1, p);
    }
  }

  lemma PrevShift(s: string, c: nat, i: nat)
    requires 0 < c <= i <= |s| && !IsBlank(s[c - 1])
    ensures var q := Prev(s[c..], i - c); Prev(s, i) == if q == -1 then c - 1 else c + q
  {
    var q := Prev(s[c..], i - c);
    assert forall j :: c <= j < i ==> s[c..][j - c] == s[j];
    PrevIs(s, i, if q == -1 then c - 1 else c + q);
  }

  /** Nothing is misplaced before `c`, and nothing stops the parser. */
  ghost predicate ClearTo(s: string, c: nat)
    requires c <= |s|
  {
    forall j :: 0 <= j < c ==> !Misplaced(s, j) && !Stops(s, j)
  }

  /** After a run of slashes the rest of the text decides. */
  lemma RelativeRest(s: string, c: nat)
    requires 0 < c <= |s| && s[c - 1] == '/' && (c < |s| ==> s[c] != '/') && ClearTo(s, c)
    ensures RelativePath(s) <==> RelativePath(s[c..])
  {
    forall i | c <= i < |s|
      ensures Misplaced(s, i) <==> Misplaced(s[c..], i - c)
      ensures Stops(s, i) <==> Stops(s[c..], i - c)
    {
      PrevShift(s, c, i);
    }
    hide Misplaced, Stops;
    var t := s[c..];
    if RelativePath(s) {
      forall i | 0 <= i < |t| && Misplaced(t, i) ensures exists j :: 0 <= j < i && Stops(t, j) {
        assert Misplaced(s, i + c);
        var j :| 0 <= j < i + c && Stops(s, j);
        assert Stops(t, j - c);
      }
    }
    if RelativePath(t) {
      forall i | 0 <= i < |s| && Misplaced(s, i) ensures exists j :: 0 <= j < i && Stops(s, j) {
        var j :| 0 <= j < i - c && Stops(t, j);
        assert Stops(s, j + c);
      }
    }
  }

  /** A position at which the parser stops, with nothing misplaced up to it. */
  lemma StopDecides(s: string, c: nat)
    requires c <= |s| && (forall i :: 0 <= i < c ==> !Misplaced(s, i))
    requires c < |s| ==> Stops(s, c) && !Misplaced(s, c)
    ensures RelativePath(s)
  {
    hide Misplaced, Stops;
  }

  ghost predicate OnlyNames(branches: seq<string>) {
    forall b :: b in branches ==> IsName(b)
  }

  /** The first name ends at `k`; `c` is the first position after it that holds no blank. */
  lemma FirstName(s: string, f: nat, k: nat, c: nat)
    requires f == Skip(s, 0) < |s| && IsIdentifier(s[f]) && k == NameEnd(s, f) && c == Skip(s, k)
    ensures f < k && ClearTo(s, c)
    ensures c < |s| ==> Prev(s, c) == k - 1 && IsIdentifier(s[k - 1]) && !Misplaced(s, c)
    ensures c < |s| && IsIdentifier(s[c]) ==> k - 1 < c - 1
  {
    NamesAreIdentifiers(s, f);
    NameEndsAt(s, f);
    forall j | 0 <= j < c ensures !Misplaced(s, j) && !Stops(s, j) {
      if f < j < k {
        PrevIs(s, j, j - 1);
      } else if j == f {
        PrevIs(s, j, -1);
      }
    }
    if c < |s| {
      PrevIs(s, c, k - 1);
    }
  }

  lemma {:induction false} NameEndsAt(s: string, i: nat)
    requires i <= |s|
    ensures NameEnd(s, i) < |s| ==> !IsIdentifier(s[NameEnd(s, i)])
    decreases |s| - i
  {
    if i < |s| && IsIdentifier(s[i]) {
      NameEndsAt(s, i + 1);
    }
  }

  lemma SlashRun(s: string, k: nat, c: nat, n: nat)
    requires c < |s| && s[c] == '/' && n == SlashEnd(s, c + 1) && k <= c
    requires ClearTo(s, c) && !Misplaced(s, c)
    ensures c < n && s[n - 1] == '/' && (n < |s| ==> s[n] != '/') && ClearTo(s, n)
  {
    SlashEndSlashes(s, c + 1);
    forall j | c <= j < n ensures !Misplaced(s, j) && !Stops(s, j) {
      if c < j {
        PrevIs(s, j, j - 1);
      }
    }
  }

  /** `Branches` in terms of the token at the first position that holds no blank, and the
      one after it. */
  lemma BranchTokens(s: string, f: nat, token: string, k: nat, c: nat, separator: string, n: nat)
    requires f == Skip(s, 0) && (token, k) == Token(s, f) && c == Skip(s, k) && (separator, n) == Token(s, c)
    ensures Branches(s) == (if token != "" then [token] else []) + (if separator == "/" then Branches(s[n..]) else [])
  {
    hide Token, Branches, Skip;
    BranchesOf(s);
    TokenSkips(s, 0);
    TokenSkips(s, k);
  }

  lemma NothingToRead(s: string, f: nat)
    requires f == Skip(s, 0) && (f < |s| ==> s[f] == '\0')
    ensures RelativePath(s) && Branches(s) == []
  {
    hide Branches, RelativePath, Skip;
    BranchTokens(s, f, "", f, f, "", f);
    forall j | 0 <= j < f ensures !Misplaced(s, j) {
      assert IsBlank(s[j]);
    }
    StopDecides(s, f);
  }

  lemma SeparatorMisplaced(s: string, f: nat)
    requires f == Skip(s, 0) < |s| && (s[f] == '/' || s[f] == ':')
    ensures !RelativePath(s)
  {
    hide Skip, Prev;
    PrevIs(s, f, -1);
    assert Misplaced(s, f);
    forall j | 0 <= j < f ensures !Stops(s, j) {
      assert IsBlank(s[j]);
    }
    hide Misplaced, Stops;
  }

  lemma SeparatorBranch(s: string, f: nat)
    requires f == Skip(s, 0) < |s| && (s[f] == '/' || s[f] == ':')
    ensures !OnlyNames(Branches(s))
  {
    hide Branches, Skip, IsName;
    var (token, k) := Token(s, f);
    assert token == [s[f]];
    hide Token;
    var (separator, n) := Token(s, Skip(s, k));
    BranchTokens(s, f, token, k, Skip(s, k), separator, n);
    assert token in Branches(s);
    SeparatorIsNoName(s[f]);
  }

  lemma SeparatorIsNoName(c: char)
    requires !IsIdentifier(c)
    ensures !IsName([c])
  {
    assert [c][0] == c;
  }

  /** A token that starts with an identifier is a name. */
  lemma NameToken(s: string, i: nat)
    requires i < |s| && IsIdentifier(s[i])
    ensures IsName(Token(s, i).0) && Token(s, i).0 != "/" && Token(s, i).1 == NameEnd(s, i)
  {
    NamesAreIdentifiers(s, i);
    NameIsNotSlash(Token(s, i).0);
  }

  lemma SeparatorToken(s: string, c: nat)
    requires c <= |s| && (c < |s| ==> s[c] != '/' && !IsBlank(s[c]))
    ensures Token(s, c).0 != "/"
  {
    if c < |s| && IsIdentifier(s[c]) {
      NameToken(s, c);
    }
  }

  /** Without a slash the first name is the only branch. */
  lemma OneName(s: string, f: nat, k: nat, c: nat)
    requires f == Skip(s, 0) < |s| && IsIdentifier(s[f]) && k == NameEnd(s, f) && c == Skip(s, k)
    requires c < |s| ==> s[c] != '/'
    ensures RelativePath(s) && OnlyNames(Branches(s))
  {
    hide Branches, RelativePath, Token, IsName, Prev, Misplaced, NameEnd, IsIdentifier, Skip;
    NameToken(s, f);
    SeparatorToken(s, c);
    BranchTokens(s, f, Token(s, f).0, k, c, Token(s, c).0, Token(s, c).1);
    FirstName(s, f, k, c);
    StopDecides(s, c);
  }

  lemma NameThenSlashesText(s: string, f: nat, k: nat, c: nat, n: nat)
    requires f == Skip(s, 0) < |s| && IsIdentifier(s[f]) && k == NameEnd(s, f) && c == Skip(s, k)
    requires c < |s| && s[c] == '/' && n == SlashEnd(s, c + 1)
    ensures 0 < n <= |s| && (RelativePath(s) <==> RelativePath(s[n..]))
  {
    hide RelativePath, ClearTo, Misplaced, Skip, NameEnd, SlashEnd, Prev;
    FirstName(s, f, k, c);
    SlashRun(s, k, c, n);
    RelativeRest(s, n);
  }

  /** After the slashes the rest of the text is parsed. */
  lemma NameThenSlashes(s: string, f: nat, k: nat, c: nat, n: nat)
    requires f == Skip(s, 0) < |s| && IsIdentifier(s[f]) && k == NameEnd(s, f) && c == Skip(s, k)
    requires c < |s| && s[c] == '/' && n == SlashEnd(s, c + 1)
    ensures OnlyNames(Branches(s)) <==> OnlyNames(Branches(s[n..]))
  {
    hide Branches, IsName, NameEnd, SlashEnd, Skip;
    NameToken(s, f);
    var token := Token(s, f).0;
    assert Token(s, c) == ("/", n);
    hide Token, IsIdentifier;
    NameIsNotEmpty(token);
    BranchTokens(s, f, token, k, c, "/", n);
    ConsNames(token, Branches(s[n..]));
  }

  lemma ConsNames(name: string, rest: seq<string>)
    requires IsName(name)
    ensures OnlyNames([name] + rest) <==> OnlyNames(rest)
  {
    hide IsName;
    assert forall b :: b in [name] + rest <==> b == name || b in rest;
  }

  /** A path parses to names alone exactly when its text is relative. */
  lemma {:induction false} RelativeIff(s: string)
    ensures RelativePath(s) <==> OnlyNames(Branches(s))
    decreases |s|
  {
    hide Branches, RelativePath, OnlyNames;
    var f := Skip(s, 0);
    if f == |s| || s[f] == '\0' {
      NothingToRead(s, f);
      NoNames();
    } else if !IsIdentifier(s[f]) {
      SeparatorMisplaced(s, f);
      SeparatorBranch(s, f);
    } else {
      var k := NameEnd(s, f);
      var c := Skip(s, k);
      if c < |s| && s[c] == '/' {
        var n := SlashEnd(s, c + 1);
        NameThenSlashesText(s, f, k, c, n);
        NameThenSlashes(s, f, k, c, n);
        RelativeIff(s[n..]);
      } else {
        OneName(s, f, k, c);
      }
    }
  }

  lemma NoNames()
    ensures OnlyNames([])
  {
  }

  predicate ColonAfterSlash(s: string, i: nat)
    requires i < |s|
  {
    0 < i && s[i] == ':' && s[i - 1] == '/'
  }

  /** Among identifiers, slashes and colons only, a path is relative exactly when it is
      empty or starts with a name, and its first colon, if any, does not follow a slash. */
  lemma RelativeWithoutBlanks(s: string)
    requires forall i :: 0 <= i < |s| ==> IsIdentifier(s[i]) || s[i] == '/' || s[i] == ':'
    ensures RelativePath(s) <==>
              && (s == "" || IsIdentifier(s[0]))
              && (forall i :: 0 <= i < |s| && ColonAfterSlash(s, i) ==> exists j :: 0 <= j < i && s[j] == ':')
  {
    forall i | 0 <= i < |s|
      ensures Misplaced(s, i) <==> (i == 0 && !IsIdentifier(s[0])) || ColonAfterSlash(s, i)
      ensures Stops(s, i) <==> s[i] == ':'
    {
      PrevIs(s, i, i - 1);
    }
    hide Misplaced, Stops, IsIdentifier, ColonAfterSlash;
    if RelativePath(s) {
      assert s != "" ==> !Misplaced(s, 0);
      forall i | 0 <= i < |s| && ColonAfterSlash(s, i) ensures exists j :: 0 <= j < i && s[j] == ':' {
        assert Misplaced(s, i);
      }
    }
  }

  // ---------------------------------------------------------------- where parsing stops

  /** Any other character is skipped. */
  lemma OthersSkipped(c: char, s: string)
    requires !InAlphabet(c) && c != '/' && c != ':' && c != '\0'
    ensures Branches([c] + s) == Branches(s)
  {
    IdentifiersAre(c);
    var t := [c] + s;
    assert t[1..] == s;
    assert IsBlank(t[0]);
    assert Token(t, 0) == Token(t, 1);
    TokenShift(t, 1, 0);
    hide Token, InAlphabet, IsIdentifier, Branches, Scan;
    BranchesOf(t);
    ScanFrom(t, 1);
    ScanFrom(t, Token(t, 0).1);
    var (token, k) := Token(t, 0);
    var (separator, n) := Token(t, k);
    BranchesStep(s, token, t[k..], separator, t[n..]);
  }

  lemma {:induction false} NulNameEnd(s: string, t: string, i: nat)
    requires i <= |s|
    ensures NameEnd(s + "\0" + t, i) == NameEnd(s, i)
    ensures SlashEnd(s + "\0" + t, i) == SlashEnd(s, i)
    decreases |s| - i
  {
    var u := s + "\0" + t;
    if i < |s| {
      assert u[i] == s[i];
      NulNameEnd(s, t, i + 1);
    } else {
      assert u[i] == '\0';
    }
  }

  lemma {:induction false} NulToken(s: string, t: string, i: nat)
    requires i <= |s|
    ensures Token(s + "\0" + t, i) == Token(s, i)
    decreases |s| - i
  {
    var u := s + "\0" + t;
    if i < |s| {
      assert u[i] == s[i];
      NulNameEnd(s, t, i);
      NulNameEnd(s, t, i + 1);
      assert u[i..NameEnd(s, i)] == s[i..NameEnd(s, i)];
      NulToken(s, t, i + 1);
    } else {
      assert u[i] == '\0';
    }
  }

  /** A NUL ends the path. */
  lemma {:induction false} NulEnds(s: string, t: string)
    ensures Branches(s + "\0" + t) == Branches(s)
    decreases |s|
  {
    hide Token, Branches;
    var u := s + "\0" + t;
    BranchesOf(u);
    BranchesOf(s);
    NulToken(s, t, 0);
    var k := Token(s, 0).1;
    NulToken(s, t, k);
    var (separator, n) := Token(s, k);
    if separator == "/" {
      assert u[n..] == s[n..] + "\0" + t;
      SeparatorAdvances(s, k);
      NulEnds(s[n..], t);
    }
  }

  lemma SeparatorAdvances(s: string, k: nat)
    requires k <= |s| && Token(s, k).0 == "/"
    ensures 0 < Token(s, k).1
  {
  }

  lemma ScanColon(n: nat, rest: string)
    requires rest != "" ==> IsIdentifier(rest[0])
    ensures Scan(":" + Slashes(n) + rest) == (":", rest)
  {
    SlashEndIs(":" + Slashes(n) + rest, 1, n + 1);
  }

  /** A leading colon is taken as a branch with the slashes after it, and the path that
      follows is dropped. */
  lemma LeadingColon(n: nat, names: seq<string>, slashes: seq<nat>)
    requires |names| == |slashes| > 0 && IsName(names[0])
    requires slashes[0] == 0 ==> |names| == 1
    ensures Branches(":" + Slashes(n) + Print(names, slashes)) == [":"]
  {
    hide Scan, Branches, Slashes, IsIdentifier, IsName;
    var tail := Print(names[1..], slashes[1..]);
    PrintStarts(names, slashes);
    ScanColon(n, Print(names, slashes));
    SlashesThenName(slashes[0], tail);
    ScanName(names[0], Slashes(slashes[0]) + tail);
    NameIsNotSlash(names[0]);
    BranchesStep(":" + Slashes(n) + Print(names, slashes), ":", Print(names, slashes), names[0],
                 Slashes(slashes[0]) + tail);
  }

  /** After a name, a colon ends the path, and so does a second name after blanks. */
  lemma NameThenStop(name: string, blanks: string, stop: char, rest: string)
    requires name != "" && forall i :: 0 <= i < |name| ==> InAlphabet(name[i])
    requires forall i :: 0 <= i < |blanks| ==> IsBlank(blanks[i])
    requires stop == ':' || (blanks != "" && InAlphabet(stop))
    ensures Branches(name + (blanks + [stop] + rest)) == [name]
  {
    forall i | 0 <= i < |name| ensures IsIdentifier(name[i]) {
      IdentifiersAre(name[i]);
    }
    IdentifiersAre(stop);
    hide InAlphabet, Scan, Branches, IsBlank;
    var t := blanks + [stop] + rest;
    StopFollows(blanks, stop, rest);
    ScanName(name, t);
    hide IsIdentifier;
    BranchesStep(name + t, name, t, Scan(t).0, Scan(t).1);
  }

  lemma StopFollows(blanks: string, stop: char, rest: string)
    requires forall i :: 0 <= i < |blanks| ==> IsBlank(blanks[i])
    requires stop == ':' || (blanks != "" && IsIdentifier(stop))
    ensures var t := blanks + [stop] + rest; Scan(t).0 != "/" && !IsIdentifier(t[0])
  {
    var t := blanks + [stop] + rest;
    assert t == blanks + ([stop] + rest);
    assert t[|blanks|] == stop;
    assert blanks != "" ==> t[0] == blanks[0];
    BlanksBefore(blanks, [stop] + rest);
    SeparatorToken(t, |blanks|);
  }

  lemma {:induction false} BlanksBefore(blanks: string, rest: string)
    requires forall i :: 0 <= i < |blanks| ==> IsBlank(blanks[i])
    ensures Token(blanks + rest, 0) == Token(blanks + rest, |blanks|)
  {
    SkipBlanks(blanks, rest, 0);
  }

  lemma {:induction false} SkipBlanks(blanks: string, rest: string, i: nat)
    requires i <= |blanks| && forall j :: 0 <= j < |blanks| ==> IsBlank(blanks[j])
    ensures Token(blanks + rest, i) == Token(blanks + rest, |blanks|)
    decreases |blanks| - i
  {
    if i < |blanks| {
      assert (blanks + rest)[i] == blanks[i];
      SkipBlanks(blanks, rest, i + 1);
    }
  }
}
