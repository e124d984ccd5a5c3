/** The GNU linker-script reader (src/utils/linker_script.rs): a tokenizer, a recursive group parser, and a
    printer whose every output they undo. Text is a sequence of Unicode characters. */
module LinkerScript {

  /** The Unicode White_Space property. */
  predicate IsWhitespace(c: char) {
    || '\t' <= c <= '\r' || c == ' ' || c == '\U{85}' || c == '\U{A0}' || c == '\U{1680}'
    || '\U{2000}' <= c <= '\U{200A}' || c == '\U{2028}' || c == '\U{2029}' || c == '\U{202F}'
    || c == '\U{205F}' || c == '\U{3000}'
  }

  predicate IsParen(c: char) {
    c == '(' || c == ')'
  }

  predicate Breaks(c: char) {
    IsWhitespace(c) || IsParen(c)
  }

  predicate OpensComment(s: string) {
    |s| >= 2 && s[0] == '/' && s[1] == '*'
  }

  predicate ClosesComment(s: string) {
    |s| >= 2 && s[0] == '*' && s[1] == '/'
  }

  // ---------------------------------------------------------------- tokens

  /** What is left after a comment whose opening has been read; an unclosed comment runs to the end. */
  function DropComment(s: string): (rest: string)
    ensures |rest| <= |s|
  {
    if s == [] then []
    else if ClosesComment(s) then s[2..]
    else DropComment(s[1..])
  }

  function WordLength(s: string): (n: nat)
    ensures n <= |s| && (forall k :: 0 <= k < n ==> !Breaks(s[k])) && (n < |s| ==> Breaks(s[n]))
  {
    if s == [] || Breaks(s[0]) then 0 else 1 + WordLength(s[1..])
  }

  function Tokens(s: string): seq<string>
    decreases |s|
  {
    if s == [] then []
    else if IsWhitespace(s[0]) then Tokens(s[1..])
    else if IsParen(s[0]) then [s[..1]] + Tokens(s[1..])
    else if OpensComment(s) then Tokens(DropComment(s[2..]))
    else [s[..WordLength(s)]] + Tokens(s[WordLength(s)..])
  }

  /** The first step of the tokenizer from position `pos`. */
  lemma NextToken(s: string, pos: nat)
    requires pos < |s|
    ensures IsWhitespace(s[pos]) ==> Tokens(s[pos..]) == Tokens(s[pos + 1..])
    ensures IsParen(s[pos]) ==> Tokens(s[pos..]) == [s[pos..pos + 1]] + Tokens(s[pos + 1..])
    ensures !Breaks(s[pos]) && OpensComment(s[pos..]) ==> Tokens(s[pos..]) == Tokens(DropComment(s[pos + 2..]))
    ensures !Breaks(s[pos]) && !OpensComment(s[pos..]) ==>
      var n := WordLength(s[pos..]);
      Tokens(s[pos..]) == [s[pos..pos + n]] + Tokens(s[pos + n..])
  {
    assert IsParen(s[pos]) ==> !IsWhitespace(s[pos]);
    hide WordLength, DropComment, IsWhitespace, IsParen;
    var t := s[pos..];
    var n := WordLength(t);
    assert t[0] == s[pos] && t[1..] == s[pos + 1..] && t[..1] == s[pos..pos + 1];
    assert t[..n] == s[pos..pos + n] && t[n..] == s[pos + n..];
    assert OpensComment(t) ==> t[2..] == s[pos + 2..];
  }

  method Tokenize(s: string) returns (tokens: seq<string>)
    ensures tokens == Tokens(s)
  {
    hide Tokens, IsWhitespace, IsParen;
    tokens := [];
    var pos := 0;
    assert s[0..] == s;
    while pos < |s|
      invariant pos <= |s|
      invariant tokens + Tokens(s[pos..]) == Tokens(s)
    {
      NextToken(s, pos);
      var start, c := pos, s[pos];
      pos := pos + 1;
      if IsWhitespace(c) {
        continue;
      }
      if IsParen(c) {
        tokens := tokens + [s[start..start + 1]];
        continue;
      }
      if c == '/' && pos < |s| && s[pos] == '*' {
        pos := SkipComment(s, pos + 1);
        continue;
      }
      pos := SkipWord(s, start, pos);
      tokens := tokens + [s[start..pos]];
    }
    assert s[pos..] == [] && Tokens([]) == [] by { NothingToTokenize(); }
  }

  method SkipComment(s: string, start: nat) returns (pos: nat)
    requires start <= |s|
    ensures start <= pos <= |s| && s[pos..] == DropComment(s[start..])
  {
    pos := start;
    while pos < |s|
      invariant start <= pos <= |s|
      invariant DropComment(s[pos..]) == DropComment(s[start..])
    {
      var c := s[pos];
      pos := pos + 1;
      if c == '*' && pos < |s| && s[pos] == '/' {
        assert ClosesComment(s[pos - 1..]);
        pos := pos + 1;
        break;
      }
    }
  }

  method SkipWord(s: string, start: nat, from: nat) returns (pos: nat)
    requires from == start + 1 <= |s| && !Breaks(s[start])
    ensures from <= pos <= |s| && pos - start == WordLength(s[start..])
  {
    pos := from;
    while pos < |s| && !Breaks(s[pos])
      invariant from <= pos <= |s|
      invariant WordLength(s[start..]) == pos - start + WordLength(s[pos..])
    {
      pos := pos + 1;
    }
  }

  // ---------------------------------------------------------------- the parser

  predicate IsFlag(token: string) {
    token != [] && token[0] == '-'
  }

  function AsciiUpper(c: char): char {
    if 'a' <= c <= 'z' then (c as int - 32) as char else c
  }

  predicate EqIgnoreAsciiCase(a: string, b: string) {
    |a| == |b| && forall k :: 0 <= k < |a| ==> AsciiUpper(a[k]) == AsciiUpper(b[k])
  }

  predicate IsCommand(token: string) {
    EqIgnoreAsciiCase(token, "GROUP") || EqIgnoreAsciiCase(token, "INPUT")
  }

  predicate OpensAt(tokens: seq<string>, i: nat) {
    i < |tokens| && tokens[i] == "("
  }

  predicate ClosesAt(tokens: seq<string>, i: nat) {
    i < |tokens| && tokens[i] == ")"
  }

  /** The names of a group whose first token is at i, and the index after it. The index only moves on. */
  function Group(tokens: seq<string>, i: nat): (r: (seq<string>, nat))
    ensures if i < |tokens| then i < r.1 <= |tokens| + 1 else r.1 == i
    decreases |tokens| - i
  {
    if i >= |tokens| then ([], i)
    else if tokens[i] == ")" then ([], i + 1)
    else if tokens[i] == "AS_NEEDED" then
      if OpensAt(tokens, i + 1) then
        var inner := Group(tokens, i + 2);
        var rest := Group(tokens, inner.1);
        (inner.0 + rest.0, rest.1)
      else Group(tokens, i + 2)
    else
      var rest := Group(tokens, i + 1);
      ((if IsFlag(tokens[i]) then [] else [tokens[i]]) + rest.0, rest.1)
  }

  function LibsFrom(tokens: seq<string>, i: nat): seq<string>
    decreases |tokens| - i
  {
    if i >= |tokens| then []
    else if IsCommand(tokens[i]) && OpensAt(tokens, i + 1) then
      Group(tokens, i + 2).0 + LibsFrom(tokens, Group(tokens, i + 2).1)
    else LibsFrom(tokens, i + 1)
  }

  /** The vector the parser pushes into. */
  class LibList {
    var names: seq<string>

    constructor ()
      ensures names == []
    {
      names := [];
    }

    method Push(name: string)
      modifies this
      ensures names == old(names) + [name]
    {
      names := names + [name];
    }
  }

  lemma GroupEnds(tokens: seq<string>, i: nat)
    requires i < |tokens| ==> tokens[i] == ")"
    ensures Group(tokens, i) == ([], if i < |tokens| then i + 1 else i)
  {
  }

  lemma GroupOfName(tokens: seq<string>, i: nat)
    requires i < |tokens| && tokens[i] != ")" && tokens[i] != "AS_NEEDED"
    ensures Group(tokens, i).0 == (if IsFlag(tokens[i]) then [] else [tokens[i]]) + Group(tokens, i + 1).0
    ensures Group(tokens, i).1 == Group(tokens, i + 1).1
  {
  }

  lemma GroupOfList(tokens: seq<string>, i: nat)
    requires i < |tokens| && tokens[i] == "AS_NEEDED"
    ensures OpensAt(tokens, i + 1) ==>
              var inner := Group(tokens, i + 2);
              && Group(tokens, i).0 == inner.0 + Group(tokens, inner.1).0
              && Group(tokens, i).1 == Group(tokens, inner.1).1
    ensures !OpensAt(tokens, i + 1) ==> Group(tokens, i) == Group(tokens, i + 2)
  {
  }

  method ParseGroup(tokens: seq<string>, start: nat, libs: LibList) returns (i: nat)
    modifies libs
    ensures i == Group(tokens, start).1 && libs.names == old(libs.names) + Group(tokens, start).0
    decreases |tokens| - start
  {
    hide Group, IsFlag;
    i := start;
    while i < |tokens|
      invariant start <= i
      invariant Group(tokens, start).1 == Group(tokens, i).1
      invariant old(libs.names) + Group(tokens, start).0 == libs.names + Group(tokens, i).0
      decreases |tokens| - i
    {
      var token := tokens[i];
      if token == ")" {
        GroupEnds(tokens, i);
        i := i + 1;
        return;
      } else if token == "AS_NEEDED" {
        GroupOfList(tokens, i);
        i := i + 1;
        if i < |tokens| && tokens[i] == "(" {
          i := i + 1;
          i := ParseGroup(tokens, i, libs);
        } else {
          i := i + 1;
        }
      } else {
        GroupOfName(tokens, i);
        if !IsFlag(token) {
          libs.Push(token);
        }
        i := i + 1;
      }
    }
    GroupEnds(tokens, i);
  }

  lemma LibsNext(tokens: seq<string>, i: nat)
    requires i < |tokens|
    ensures IsCommand(tokens[i]) && OpensAt(tokens, i + 1) ==>
              LibsFrom(tokens, i) == Group(tokens, i + 2).0 + LibsFrom(tokens, Group(tokens, i + 2).1)
    ensures !(IsCommand(tokens[i]) && OpensAt(tokens, i + 1)) ==> LibsFrom(tokens, i) == LibsFrom(tokens, i + 1)
  {
    hide IsCommand, Group;
  }

  lemma NoLibsAtEnd(tokens: seq<string>, i: nat)
    requires i >= |tokens|
    ensures LibsFrom(tokens, i) == []
  {
  }

  method GetLinkerScriptLibs(content: string) returns (names: seq<string>)
    ensures names == LibsFrom(Tokens(content), 0)
  {
    hide IsCommand, Group, LibsFrom;
    var libs := new LibList();
    var tokens := Tokenize(content);
    var i := 0;
    while i < |tokens|
      invariant LibsFrom(tokens, 0) == libs.names + LibsFrom(tokens, i)
      decreases |tokens| - i
    {
      LibsNext(tokens, i);
      if IsCommand(tokens[i]) {
        i := i + 1;
        if i < |tokens| && tokens[i] == "(" {
          i := i + 1;
          i := ParseGroup(tokens, i, libs);
        }
      } else {
        i := i + 1;
      }
    }
    NoLibsAtEnd(tokens, i);
    return libs.names;
  }

  // ---------------------------------------------------------------- scripts and how they are printed

  /** What stands inside a group: file names, flags, and `AS_NEEDED ( ... )` to any depth. */
  datatype Members = End | Name(text: string, rest: Members) | AsNeeded(inner: Members, others: Members)

  /** A GROUP or INPUT command in any letter case, or one token of anything else. */
  datatype Command = Files(keyword: string, members: Members) | Other(token: string)

  type Script = seq<Command>

  /** A group has no bare parentheses and no `AS_NEEDED` without a list. */
  predicate WellFormedMembers(m: Members) {
    match m
    case End => true
    case Name(text, rest) => text != "(" && text != ")" && text != "AS_NEEDED" && WellFormedMembers(rest)
    case AsNeeded(inner, others) => WellFormedMembers(inner) && WellFormedMembers(others)
  }

  predicate WellFormed(s: Script) {
    forall k :: 0 <= k < |s| ==>
      match s[k]
      case Files(keyword, members) => IsCommand(keyword) && WellFormedMembers(members)
      case Other(token) => !IsCommand(token)
  }

  function MemberTokens(m: Members): seq<string> {
    match m
    case End => []
    case Name(text, rest) => [text] + MemberTokens(rest)
    case AsNeeded(inner, others) => ["AS_NEEDED", "("] + MemberTokens(inner) + [")"] + MemberTokens(others)
  }

  function CommandTokens(c: Command): seq<string> {
    match c
    case Files(keyword, members) => [keyword, "("] + MemberTokens(members) + [")"]
    case Other(token) => [token]
  }

  function ScriptTokens(s: Script): seq<string> {
    if s == [] then [] else CommandTokens(s[0]) + ScriptTokens(s[1..])
  }

  /** What the script means: its file names in order, without the flags. */
  function FileNames(m: Members): seq<string> {
    match m
    case End => []
    case Name(text, rest) => (if IsFlag(text) then [] else [text]) + FileNames(rest)
    case AsNeeded(inner, others) => FileNames(inner) + FileNames(others)
  }

  function ScriptFileNames(s: Script): seq<string> {
    if s == [] then []
    else (if s[0].Files? then FileNames(s[0].members) else []) + ScriptFileNames(s[1..])
  }

  /** What may stand between tokens. */
  datatype Piece = Blank(c: char) | Comment(body: string)

  predicate NeverCloses(body: string) {
    body == [] || (!ClosesComment(body) && NeverCloses(body[1..]))
  }

  predicate ValidPiece(p: Piece) {
    match p
    case Blank(c) => IsWhitespace(c)
    case Comment(body) => NeverCloses(body)
  }

  predicate ValidGap(gap: seq<Piece>) {
    gap != [] ==> ValidPiece(gap[0]) && ValidGap(gap[1..])
  }

  function PieceText(p: Piece): string {
    match p
    case Blank(c) => [c]
    case Comment(body) => "/*" + body + "*/"
  }

  function GapText(gap: seq<Piece>): string {
    if gap == [] then [] else PieceText(gap[0]) + GapText(gap[1..])
  }

  predicate IsWord(token: string) {
    token != [] && !OpensComment(token) && forall k :: 0 <= k < |token| ==> !Breaks(token[k])
  }

  predicate IsParenToken(token: string) {
    token == "(" || token == ")"
  }

  /** A token and the gap after it. */
  datatype Lexeme = Lexeme(token: string, after: seq<Piece>)

  function Printed(lexemes: seq<Lexeme>): string {
    if lexemes == [] then [] else lexemes[0].token + GapText(lexemes[0].after) + Printed(lexemes[1..])
  }

  /** A word must be followed by white space, a parenthesis or the end: a comment or another word right
      behind it would belong to it. */
  predicate Separated(lexemes: seq<Lexeme>) {
    lexemes != [] ==>
    && ValidGap(lexemes[0].after)
    && (|| IsParenToken(lexemes[0].token)
        || (&& IsWord(lexemes[0].token)
            && if lexemes[0].after != [] then lexemes[0].after[0].Blank?
               else |lexemes| > 1 ==> IsParenToken(lexemes[1].token)))
    && Separated(lexemes[1..])
  }

  function TokensOf(lexemes: seq<Lexeme>): seq<string> {
    seq(|lexemes|, i requires 0 <= i < |lexemes| => lexemes[i].token)
  }

  // ---------------------------------------------------------------- tokenizing undoes printing

  lemma {:induction false} CommentIsSkipped(body: string, rest: string)
    requires NeverCloses(body)
    ensures DropComment(body + "*/" + rest) == rest
  {
    var s := body + "*/" + rest;
    if body == [] {
      assert s == "*/" + rest;
    } else {
      CommentIsSkipped(body[1..], rest);
      assert s[1..] == body[1..] + "*/" + rest;
    }
  }

  lemma TokensOfComment(s: string)
    requires OpensComment(s)
    ensures Tokens(s) == Tokens(DropComment(s[2..]))
  {
    hide DropComment;
    assert !IsWhitespace('/') && !IsParen('/') && s[0] == '/';
    hide IsWhitespace, IsParen;
  }

  lemma PieceIsSkipped(p: Piece, rest: string)
    requires ValidPiece(p)
    ensures Tokens(PieceText(p) + rest) == Tokens(rest)
  {
    var s := PieceText(p) + rest;
    match p
    case Blank(c) =>
      assert s[0] == c && s[1..] == rest;
    case Comment(body) =>
      CommentIsSkipped(body, rest);
      assert s[0] == '/' && s[1] == '*' && s[2..] == body + "*/" + rest;
      TokensOfComment(s);
  }

  lemma {:induction false} GapIsSkipped(gap: seq<Piece>, rest: string)
    requires ValidGap(gap)
    ensures Tokens(GapText(gap) + rest) == Tokens(rest)
  {
    hide Tokens, PieceText, ValidPiece;
    if gap == [] {
      assert GapText(gap) + rest == rest;
    } else {
      GapIsSkipped(gap[1..], rest);
      PieceIsSkipped(gap[0], GapText(gap[1..]) + rest);
      assert GapText(gap) + rest == PieceText(gap[0]) + (GapText(gap[1..]) + rest);
    }
  }

  lemma ParenIsTaken(token: string, rest: string)
    requires IsParenToken(token)
    ensures Tokens(token + rest) == [token] + Tokens(rest)
  {
    var s := token + rest;
    assert s[0] == token[0] && s[..1] == token && s[1..] == rest;
  }

  lemma {:induction false} WordLengthOf(word: string, rest: string)
    requires (forall k :: 0 <= k < |word| ==> !Breaks(word[k])) && (rest == [] || Breaks(rest[0]))
    ensures WordLength(word + rest) == |word|
  {
    hide Breaks;
    var s := word + rest;
    var n := WordLength(s);
    assert forall k :: 0 <= k < |word| ==> s[k] == word[k];
    assert rest != [] ==> s[|word|] == rest[0];
  }

  lemma WordIsTaken(word: string, rest: string)
    requires IsWord(word) && (rest == [] || Breaks(rest[0]))
    ensures Tokens(word + rest) == [word] + Tokens(rest)
  {
    var s := word + rest;
    WordLengthOf(word, rest);
    assert s[..|word|] == word && s[|word|..] == rest;
    assert s[0] == word[0] && (|word| > 1 ==> s[1] == word[1]);
    assert |word| == 1 && rest != [] ==> s[1] == rest[0];
  }

  /** What follows a separated word cannot be part of it. */
  lemma {:induction false} NextBreaks(lexemes: seq<Lexeme>)
    requires Separated(lexemes) && lexemes != [] && !IsParenToken(lexemes[0].token)
    ensures var rest := GapText(lexemes[0].after) + Printed(lexemes[1..]);
            rest == [] || Breaks(rest[0])
  {
    var after, more := lexemes[0].after, lexemes[1..];
    if after != [] {
      assert GapText(after)[0] == after[0].c;
    } else if more != [] {
      assert IsParenToken(more[0].token);
      assert Printed(more)[0] == more[0].token[0];
    }
  }

  lemma {:induction false} TokensOfFirst(lexemes: seq<Lexeme>)
    requires lexemes != []
    ensures TokensOf(lexemes) == [lexemes[0].token] + TokensOf(lexemes[1..])
  {
  }

  lemma NothingToTokenize()
    ensures Tokens([]) == TokensOf([]) == []
  {
  }

  lemma {:induction false} TokenizeUndoesPrint(lexemes: seq<Lexeme>)
    requires Separated(lexemes)
    ensures Tokens(Printed(lexemes)) == TokensOf(lexemes)
  {
    hide Tokens, TokensOf, GapText, ValidGap, IsParenToken, IsWord, Breaks;
    if lexemes == [] {
      NothingToTokenize();
    } else {
      var token, more := lexemes[0].token, Printed(lexemes[1..]);
      var rest := GapText(lexemes[0].after) + more;
      TokenizeUndoesPrint(lexemes[1..]);
      GapIsSkipped(lexemes[0].after, more);
      TokensOfFirst(lexemes);
      assert Printed(lexemes) == token + rest;
      if IsParenToken(token) {
        ParenIsTaken(token, rest);
      } else {
        NextBreaks(lexemes);
        WordIsTaken(token, rest);
      }
    }
  }

  // ---------------------------------------------------------------- parsing undoes printing

  predicate At<T(==)>(s: seq<T>, i: nat, part: seq<T>) {
    i + |part| <= |s| && s[i..i + |part|] == part
  }

  lemma FirstOf<T>(s: seq<T>, i: nat, x: T, c: seq<T>)
    requires At(s, i, [x] + c)
    ensures i < |s| && s[i] == x && At(s, i + 1, c)
  {
    var t := s[i..i + 1 + |c|];
    assert s[i] == t[0] && s[i + 1..i + 1 + |c|] == t[1..];
  }

  /** Taking a list in parentheses apart: a word, `(`, the list, `)` and what follows. */
  lemma ListAt<T>(s: seq<T>, i: nat, x: T, y: T, b: seq<T>, z: T, c: seq<T>)
    requires At(s, i, [x, y] + b + [z] + c)
    ensures i + 3 + |b| + |c| <= |s| && s[i] == x && s[i + 1] == y && s[i + 2 + |b|] == z
    ensures At(s, i + 2, b) && At(s, i + 3 + |b|, c)
  {
    var t := s[i..i + 3 + |b| + |c|];
    assert s[i] == t[0] && s[i + 1] == t[1] && s[i + 2 + |b|] == t[2 + |b|];
    forall k | 0 <= k < |b|
      ensures s[i + 2..i + 2 + |b|][k] == b[k]
    {
      assert s[i + 2 + k] == t[2 + k];
    }
    forall k | 0 <= k < |c|
      ensures s[i + 3 + |b|..i + 3 + |b| + |c|][k] == c[k]
    {
      assert s[i + 3 + |b| + k] == t[3 + |b| + k];
    }
  }

  lemma NameRead(tokens: seq<string>, i: nat, text: string, rest: Members)
    requires i < |tokens| && tokens[i] == text && text != ")" && text != "AS_NEEDED"
    requires Group(tokens, i + 1).0 == FileNames(rest)
    ensures Group(tokens, i) == (FileNames(Name(text, rest)), Group(tokens, i + 1).1)
  {
    GroupOfName(tokens, i);
    hide Group, IsFlag;
  }

  lemma ListRead(tokens: seq<string>, i: nat, inner: Members, others: Members)
    requires OpensAt(tokens, i + 1) && tokens[i] == "AS_NEEDED"
    requires Group(tokens, i + 2).0 == FileNames(inner)
    requires Group(tokens, Group(tokens, i + 2).1).0 == FileNames(others)
    ensures Group(tokens, i) == (FileNames(AsNeeded(inner, others)), Group(tokens, Group(tokens, i + 2).1).1)
  {
    GroupOfList(tokens, i);
    hide Group, OpensAt;
  }

  lemma NameTokens(tokens: seq<string>, i: nat, text: string, rest: Members)
    requires At(tokens, i, MemberTokens(Name(text, rest)))
    ensures |MemberTokens(Name(text, rest))| == 1 + |MemberTokens(rest)|
    ensures i < |tokens| && tokens[i] == text && At(tokens, i + 1, MemberTokens(rest))
  {
    FirstOf(tokens, i, text, MemberTokens(rest));
    hide At;
  }

  lemma ListTokens(tokens: seq<string>, i: nat, inner: Members, others: Members)
    requires At(tokens, i, MemberTokens(AsNeeded(inner, others)))
    ensures var b, c := MemberTokens(inner), MemberTokens(others);
            && |MemberTokens(AsNeeded(inner, others))| == 3 + |b| + |c|
            && i < |tokens| && tokens[i] == "AS_NEEDED" && OpensAt(tokens, i + 1)
            && At(tokens, i + 2, b) && ClosesAt(tokens, i + 2 + |b|) && At(tokens, i + 3 + |b|, c)
  {
    ListAt(tokens, i, "AS_NEEDED", "(", MemberTokens(inner), ")", MemberTokens(others));
    hide At;
  }

  lemma MembersParts(m: Members)
    requires WellFormedMembers(m)
    ensures m.Name? ==> WellFormedMembers(m.rest) && m.text != ")" && m.text != "AS_NEEDED"
    ensures m.AsNeeded? ==> WellFormedMembers(m.inner) && WellFormedMembers(m.others)
  {
  }

  lemma NoMembers(tokens: seq<string>, i: nat)
    requires ClosesAt(tokens, i + |MemberTokens(End)|)
    ensures Group(tokens, i) == (FileNames(End), i + |MemberTokens(End)| + 1)
  {
    GroupEnds(tokens, i);
  }

  /** A printed group followed by its closing parenthesis is read back, and nothing after it is touched. */
  lemma {:induction false} GroupReadsMembers(tokens: seq<string>, i: nat, m: Members)
    requires WellFormedMembers(m) && At(tokens, i, MemberTokens(m))
    requires ClosesAt(tokens, i + |MemberTokens(m)|)
    ensures Group(tokens, i) == (FileNames(m), i + |MemberTokens(m)| + 1)
    decreases m
  {
    hide Group, FileNames, At, MemberTokens, WellFormedMembers, ClosesAt, OpensAt;
    MembersParts(m);
    match m
    case End =>
      NoMembers(tokens, i);
    case Name(text, rest) =>
      NameTokens(tokens, i, text, rest);
      GroupReadsMembers(tokens, i + 1, rest);
      NameRead(tokens, i, text, rest);
    case AsNeeded(inner, others) =>
      ListTokens(tokens, i, inner, others);
      GroupReadsMembers(tokens, i + 2, inner);
      GroupReadsMembers(tokens, i + 3 + |MemberTokens(inner)|, others);
      ListRead(tokens, i, inner, others);
  }

  lemma LibsOfCommand(tokens: seq<string>, i: nat, b: seq<string>, m: Members)
    requires OpensAt(tokens, i + 1) && IsCommand(tokens[i]) && WellFormedMembers(m) && b == MemberTokens(m)
    requires At(tokens, i + 2, b) && ClosesAt(tokens, i + 2 + |b|)
    ensures LibsFrom(tokens, i) == FileNames(m) + LibsFrom(tokens, i + 3 + |b|)
  {
    hide IsCommand, WellFormedMembers, MemberTokens, FileNames, Group, At;
    GroupReadsMembers(tokens, i + 2, m);
  }

  lemma {:induction false} LibsReadScript(tokens: seq<string>, i: nat, s: Script)
    requires WellFormed(s) && At(tokens, i, ScriptTokens(s)) && i + |ScriptTokens(s)| == |tokens|
    ensures LibsFrom(tokens, i) == ScriptFileNames(s)
    decreases |s|
  {
    hide IsCommand, WellFormedMembers, MemberTokens, FileNames, Group, At;
    if s != [] {
      var c := ScriptTokens(s[1..]);
      match s[0]
      case Files(keyword, members) =>
        hide LibsFrom;
        var b := MemberTokens(members);
        ListAt(tokens, i, keyword, "(", b, ")", c);
        LibsOfCommand(tokens, i, b, members);
        LibsReadScript(tokens, i + 3 + |b|, s[1..]);
      case Other(token) =>
        FirstOf(tokens, i, token, c);
        LibsReadScript(tokens, i + 1, s[1..]);
    }
  }

  // ---------------------------------------------------------------- the round trip

  /** However a well-formed script is laid out, with any white space and comments, tokenizing and parsing
      its text gives exactly its file names in order. */
  lemma {:induction false} RoundTrip(s: Script, lead: seq<Piece>, lexemes: seq<Lexeme>)
    requires WellFormed(s) && ValidGap(lead) && Separated(lexemes) && TokensOf(lexemes) == ScriptTokens(s)
    ensures LibsFrom(Tokens(GapText(lead) + Printed(lexemes)), 0) == ScriptFileNames(s)
  {
    GapIsSkipped(lead, Printed(lexemes));
    TokenizeUndoesPrint(lexemes);
    LibsReadScript(ScriptTokens(s), 0, s);
  }

  /** An open comment that never closes. */
  predicate Unclosed(s: string) {
    OpensComment(s) && NeverCloses(s[2..])
  }

  lemma {:induction false} CommentBody(s: string) returns (body: string)
    ensures NeverCloses(body)
    ensures (s == body && DropComment(s) == []) || s == body + "*/" + DropComment(s)
  {
    if s == [] {
      body := [];
    } else if ClosesComment(s) {
      body := [];
      assert s == "*/" + s[2..];
    } else {
      var rest := CommentBody(s[1..]);
      body := [s[0]] + rest;
      ConsComment(s, rest);
    }
  }

  lemma {:induction false} ConsComment(s: string, rest: string)
    requires s != [] && !ClosesComment(s) && NeverCloses(rest)
    requires s[1..] == rest || s[1..] == rest + "*/" + DropComment(s[1..])
    ensures NeverCloses([s[0]] + rest)
    ensures s[1..] == rest ==> s == [s[0]] + rest
    ensures s[1..] != rest ==> s == [s[0]] + rest + "*/" + DropComment(s)
  {
    hide DropComment;
    var body := [s[0]] + rest;
    assert body[1..] == rest && s == [s[0]] + s[1..];
    assert |body| >= 2 ==> s[1] == rest[0];
    assert DropComment(s) == DropComment(s[1..]) by { CommentGoesOn(s); }
  }

  lemma CommentGoesOn(s: string)
    requires s != [] && !ClosesComment(s)
    ensures DropComment(s) == DropComment(s[1..])
  {
  }

  ghost predicate Prints(s: string, lead: seq<Piece>, lexemes: seq<Lexeme>, tail: string) {
    && ValidGap(lead) && Separated(lexemes) && (tail == [] || Unclosed(tail))
    && s == GapText(lead) + Printed(lexemes) + tail
    && TokensOf(lexemes) == Tokens(s)
  }

  lemma {:induction false} PrependPiece(p: Piece, rest: string, lead: seq<Piece>, lexemes: seq<Lexeme>, tail: string)
    requires ValidPiece(p) && Prints(rest, lead, lexemes, tail)
    ensures Prints(PieceText(p) + rest, [p] + lead, lexemes, tail)
  {
    hide Tokens, TokensOf, PieceText, ValidPiece, Printed, Separated, Unclosed;
    PieceIsSkipped(p, rest);
    assert ([p] + lead)[1..] == lead;
    assert PieceText(p) + (GapText(lead) + Printed(lexemes) + tail)
        == (PieceText(p) + GapText(lead)) + Printed(lexemes) + tail;
  }

  lemma {:induction false} PrependToken(token: string, rest: string, lead: seq<Piece>, lexemes: seq<Lexeme>, tail: string)
    requires Prints(rest, lead, lexemes, tail)
    requires IsParenToken(token) || (IsWord(token) && (rest == [] || Breaks(rest[0])))
    ensures Prints(token + rest, [], [Lexeme(token, lead)] + lexemes, tail)
  {
    hide Tokens, TokensOf, IsParenToken, IsWord, Breaks, GapText, ValidGap, Unclosed;
    var all := [Lexeme(token, lead)] + lexemes;
    assert all[1..] == lexemes;
    TokensOfFirst(all);
    assert GapText([]) == [] && ValidGap([]) by {
      NoGap();
    }
    assert token + (GapText(lead) + Printed(lexemes) + tail)
        == [] + (token + GapText(lead) + Printed(lexemes)) + tail;
    if IsParenToken(token) {
      ParenIsTaken(token, rest);
    } else {
      WordIsTaken(token, rest);
      BreakingNext(rest, lead, lexemes, tail);
    }
  }

  lemma NoGap()
    ensures GapText([]) == [] && ValidGap([])
  {
  }

  /** A text that begins with a break begins with a blank or a parenthesis, never with a comment. */
  lemma {:induction false} BreakingNext(rest: string, lead: seq<Piece>, lexemes: seq<Lexeme>, tail: string)
    requires Prints(rest, lead, lexemes, tail) && (rest == [] || Breaks(rest[0]))
    ensures if lead != [] then lead[0].Blank? else lexemes != [] ==> IsParenToken(lexemes[0].token)
  {
    hide Tokens, TokensOf, ValidGap, Unclosed;
    if lead != [] {
      assert PieceText(lead[0]) != [] && rest[0] == PieceText(lead[0])[0];
    } else if lexemes != [] {
      assert lexemes[0].token != [] && rest[0] == lexemes[0].token[0];
    }
  }

  /** The tokenizer loses nothing: every text at all is a printing of its own tokens, up to a trailing
      comment that is never closed. */
  lemma {:induction false} EveryTextIsPrinted(s: string) returns (lead: seq<Piece>, lexemes: seq<Lexeme>, tail: string)
    ensures ValidGap(lead) && Separated(lexemes) && (tail == [] || Unclosed(tail))
    ensures s == GapText(lead) + Printed(lexemes) + tail && TokensOf(lexemes) == Tokens(s)
    decreases |s|
  {
    lead, lexemes, tail := LayoutOf(s);
  }

  lemma {:induction false} LayoutOf(s: string) returns (lead: seq<Piece>, lexemes: seq<Lexeme>, tail: string)
    ensures Prints(s, lead, lexemes, tail)
    decreases |s|
  {
    hide Prints, Tokens, NeverCloses, OpensComment, IsWhitespace;
    lead, lexemes, tail := [], [], [];
    if s == [] {
      assert Prints([], [], [], []) by { NothingIsPrinted(); }
    } else if IsWhitespace(s[0]) {
      assert s == PieceText(Blank(s[0])) + s[1..];
      lead, lexemes, tail := LayoutOf(s[1..]);
      PrependPiece(Blank(s[0]), s[1..], lead, lexemes, tail);
      lead := [Blank(s[0])] + lead;
    } else if IsParen(s[0]) {
      assert s == s[..1] + s[1..];
      lead, lexemes, tail := LayoutOf(s[1..]);
      PrependToken(s[..1], s[1..], lead, lexemes, tail);
      lead, lexemes := [], [Lexeme(s[..1], lead)] + lexemes;
    } else if OpensComment(s) {
      var body, closed := CommentPieces(s);
      if closed {
        lead, lexemes, tail := LayoutOf(DropComment(s[2..]));
        PrependPiece(Comment(body), DropComment(s[2..]), lead, lexemes, tail);
        lead := [Comment(body)] + lead;
      } else {
        tail := s;
      }
    } else {
      var n := WordLength(s);
      FirstWord(s);
      lead, lexemes, tail := LayoutOf(s[n..]);
      PrependToken(s[..n], s[n..], lead, lexemes, tail);
      lead, lexemes := [], [Lexeme(s[..n], lead)] + lexemes;
    }
  }

  lemma NothingIsPrinted()
    ensures Prints([], [], [], [])
  {
  }

  /** A text that opens a comment is that comment and the rest, or nothing but an open comment. */
  lemma CommentPieces(s: string) returns (body: string, closed: bool)
    requires OpensComment(s)
    ensures closed ==> NeverCloses(body) && s == PieceText(Comment(body)) + DropComment(s[2..])
    ensures closed ==> |DropComment(s[2..])| < |s|
    ensures !closed ==> Prints(s, [], [], s)
  {
    body := CommentBody(s[2..]);
    assert s == "/*" + s[2..];
    closed := s[2..] == body + "*/" + DropComment(s[2..]);
    if !closed {
      assert DropComment(s[2..]) == [];
      NothingToTokenize();
      NoGap();
      TokensOfComment(s);
      assert Unclosed(s) && s == [] + [] + s;
    }
  }

  lemma {:induction false} FirstWord(s: string)
    requires s != [] && !Breaks(s[0]) && !OpensComment(s)
    ensures var n := WordLength(s);
            IsWord(s[..n]) && s == s[..n] + s[n..] && |s[n..]| < |s| && (s[n..] == [] || Breaks(s[n..][0]))
  {
    hide Breaks, IsParen, IsWhitespace;
    var n := WordLength(s);
    assert n > 0 && s[..n][0] == s[0] && (n > 1 ==> s[..n][1] == s[1]);
  }
}
