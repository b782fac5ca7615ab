/** The in-place editor behind ALTER TABLE RENAME: it takes a list of tokens of an SQL text and
replaces each of them, right-most first, inside one output buffer that is allocated up front.

Texts are C strings without their terminating NUL. A token is an offset into the text and a
length. */
module SqlEditor {
  import opened Collections

  datatype Token = Token(z: nat, n: nat)

  /** How tokens are replaced: by a new name (quoted always, never, or as the token was), or by
      a single-quoted version of themselves. */
  datatype Quoting = Never | AsToken | Always
  datatype Mode = Rename(name: string, quote: Quoting) | FixQuotes

  // ----- Quoted text -----

  function Doubled(q: char, body: string): string {
    if body == "" then "" else (if body[0] == q then [q, q] else [body[0]]) + Doubled(q, body[1..])
  }

  /** The %w and %Q conversions: every quote character inside the text is written twice. */
  function Quoted(q: char, body: string): string {
    [q] + Doubled(q, body) + [q]
  }

  lemma {:induction false} DoubledLength(q: char, body: string)
    ensures |body| <= |Doubled(q, body)| <= 2 * |body|
  {
    if body != "" {
      DoubledLength(q, body[1..]);
    }
  }

  predicate IsQuote(c: char) { c in {'\'', '"', '`', '['} }

  /** What sqlite3Dequote leaves, from position i of the text on. */
  function DequoteFrom(z: string, i: nat, q: char): string
    decreases |z| - i
  {
    if i >= |z| then ""
    else if z[i] != q then [z[i]] + DequoteFrom(z, i + 1, q)
    else if i + 1 < |z| && z[i + 1] == q then [q] + DequoteFrom(z, i + 2, q)
    else ""
  }

  function Closing(q: char): char { if q == '[' then ']' else q }

  function Dequote(z: string): string {
    if z == "" || !IsQuote(z[0]) then z else DequoteFrom(z, 1, Closing(z[0]))
  }

  lemma {:induction false} DequoteFromQuoted(q: char, front: string, body: string)
    ensures DequoteFrom(front + Doubled(q, body) + [q], |front|, q) == body
    decreases body
  {
    var z := front + Doubled(q, body) + [q];
    if body != "" {
      var first := if body[0] == q then [q, q] else [body[0]];
      assert z == (front + first) + Doubled(q, body[1..]) + [q];
      DequoteFromQuoted(q, front + first, body[1..]);
    }
  }

  /** Taking the quotes off gives back the text that was quoted. */
  lemma DequoteQuoted(q: char, body: string)
    requires q in {'\'', '"', '`'}
    ensures Dequote(Quoted(q, body)) == body
  {
    DequoteFromQuoted(q, [q], body);
  }

  /** Brackets are closed by another character than they are opened with. */
  lemma DequoteBrackets(body: string)
    ensures Dequote("[" + Doubled(']', body) + "]") == body
  {
    DequoteFromQuoted(']', "[", body);
  }

  ghost predicate HoldsQuoted(z: string, i: nat, q: char, body: string) {
    && i + |Doubled(q, body)| < |z| && z[i..i + |Doubled(q, body)|] == Doubled(q, body)
    && z[i + |Doubled(q, body)|] == q
  }

  lemma FirstQuoted(z: string, i: nat, q: char, body: string)
    requires HoldsQuoted(z, i, q, body) && body != ""
    ensures
      var n := if body[0] == q then 2 else 1;
      && |Doubled(q, body)| == n + |Doubled(q, body[1..])| && i + n < |z|
      && z[i] == body[0] && (body[0] == q ==> z[i + 1] == q)
      && HoldsQuoted(z, i + n, q, body[1..])
  {
    var first, more := if body[0] == q then [q, q] else [body[0]], Doubled(q, body[1..]);
    var n, part := |first|, z[i..i + |first| + |more|];
    assert Doubled(q, body) == first + more;
    assert part == first + more;
    assert z[i + n..i + n + |more|] == part[n..] == more;
    assert z[i] == part[0] && (n == 2 ==> z[i + 1] == part[1]);
  }

  lemma DequoteUnfolds(z: string, i: nat, q: char)
    requires i < |z|
    ensures DequoteFrom(z, i, q) ==
      if z[i] != q then [z[i]] + DequoteFrom(z, i + 1, q)
      else if i + 1 < |z| && z[i + 1] == q then [q] + DequoteFrom(z, i + 2, q)
      else ""
  {
  }

  function Resumed(z: string, e: nat, q: char): string {
    if e + 1 < |z| && z[e + 1] == q then [q] + DequoteFrom(z, e + 2, q) else ""
  }

  lemma NoneQuoted(z: string, i: nat, q: char)
    requires HoldsQuoted(z, i, q, "")
    ensures i + |Doubled(q, "")| == i && DequoteFrom(z, i, q) == "" + Resumed(z, i, q)
  {
    hide DequoteFrom;
    DequoteUnfolds(z, i, q);
  }

  lemma OneQuoted(z: string, i: nat, q: char, body: string) returns (k: nat)
    requires HoldsQuoted(z, i, q, body) && body != ""
    ensures HoldsQuoted(z, k, q, body[1..]) && k + |Doubled(q, body[1..])| == i + |Doubled(q, body)|
    ensures DequoteFrom(z, i, q) == [body[0]] + DequoteFrom(z, k, q)
  {
    FirstQuoted(z, i, q, body);
    k := if body[0] == q then i + 2 else i + 1;
    hide *;
    DequoteUnfolds(z, i, q);
  }

  /** What is read from a quoted body on: the body, and more only if another quote follows. */
  lemma {:induction false} DequoteThen(z: string, i: nat, q: char, body: string)
    requires HoldsQuoted(z, i, q, body)
    ensures DequoteFrom(z, i, q) == body + Resumed(z, i + |Doubled(q, body)|, q)
    decreases body
  {
    hide *;
    if body == "" {
      NoneQuoted(z, i, q);
    } else {
      var k := OneQuoted(z, i, q, body);
      DequoteThen(z, k, q, body[1..]);
      var more := Resumed(z, i + |Doubled(q, body)|, q);
      assert [body[0]] + (body[1..] + more) == body + more;
    }
  }

  /** A quoted text is read back from the start of a longer one if and only if the quote character
      does not follow it. */
  lemma ReadsBackExactly(q: char, body: string, rest: string)
    requires q in {'\'', '"', '`'}
    ensures Dequote(Quoted(q, body) + rest) == body <==> rest == "" || rest[0] != q
  {
    var z, n := Quoted(q, body) + rest, |Doubled(q, body)|;
    assert z[1..1 + n] == Doubled(q, body) && z[1 + n] == q;
    assert rest != "" ==> z[2 + n] == rest[0];
    assert Dequote(z) == DequoteFrom(z, 1, q) && HoldsQuoted(z, 1, q, body);
    assert (rest == "" || rest[0] != q) == (|Resumed(z, 1 + n, q)| == 0);
    hide *;
    DequoteThen(z, 1, q, body);
  }

  // ----- The specification: one pass, all tokens at once -----

  ghost predicate InText(sql: string, t: Token) {
    t.n > 0 && t.z + t.n <= |sql|
  }

  predicate Disjoint(t: Token, u: Token) {
    t.z + t.n <= u.z || u.z + u.n <= t.z
  }

  ghost predicate Tokens(sql: string, toks: seq<Token>) {
    && (forall i | 0 <= i < |toks| :: InText(sql, toks[i]))
    && (forall i, j | 0 <= i < j < |toks| :: Disjoint(toks[i], toks[j]))
  }

  function Text(sql: string, t: Token): string
    requires t.z + t.n <= |sql|
  {
    sql[t.z..t.z + t.n]
  }

  /** The character after the token; NUL at the end of the text. */
  function After(sql: string, t: Token): char {
    if t.z + t.n < |sql| then sql[t.z + t.n] else '\0'
  }

  predicate IsIdChar(c: char) {
    'a' <= c <= 'z' || 'A' <= c <= 'Z' || '0' <= c <= '9' || c == '_' || c == '$' || c >= '\U{0080}'
  }

  function Replacement(mode: Mode, sql: string, t: Token): string
    requires t.n > 0 && t.z + t.n <= |sql|
  {
    match mode
    case Rename(name, quote) =>
      if quote == Never || (quote == AsToken && IsIdChar(sql[t.z])) then name
      else Quoted('"', name) + (if After(sql, t) == '"' then " " else "")
    case FixQuotes =>
      Quoted('\'', Dequote(Text(sql, t))) + (if After(sql, t) == '\'' then " " else "")
  }

  ghost predicate Starts(toks: seq<Token>, pos: nat) {
    exists t :: t in toks && t.z == pos
  }

  /** The text from `pos` on, read left to right, with every token replaced where it starts. */
  ghost function Substitute(mode: Mode, sql: string, toks: seq<Token>, pos: nat): string
    requires forall t | t in toks :: InText(sql, t)
    decreases |sql| - pos
  {
    if pos >= |sql| then ""
    else if Starts(toks, pos) then
      var t :| t in toks && t.z == pos;
      assert InText(sql, t);
      Replacement(mode, sql, t) + Substitute(mode, sql, toks, pos + t.n)
    else [sql[pos]] + Substitute(mode, sql, toks, pos + 1)
  }

  /** Text without a token start is copied as it is. */
  lemma {:induction false} CopiesBetween(mode: Mode, sql: string, toks: seq<Token>, lo: nat, hi: nat)
    requires (forall t | t in toks :: InText(sql, t)) && lo <= hi <= |sql|
    requires forall t | t in toks :: t.z < lo || hi <= t.z
    ensures Substitute(mode, sql, toks, lo) == sql[lo..hi] + Substitute(mode, sql, toks, hi)
    decreases hi - lo
  {
    if lo < hi {
      CopiesBetween(mode, sql, toks, lo + 1, hi);
      assert !Starts(toks, lo);
      assert Substitute(mode, sql, toks, lo) == [sql[lo]] + Substitute(mode, sql, toks, lo + 1);
      hide Substitute;
      hide Replacement;
      assert sql[lo..hi] == [sql[lo]] + sql[lo + 1..hi];
    }
  }

  lemma SubstitutesAt(mode: Mode, sql: string, toks: seq<Token>, t: Token)
    requires Tokens(sql, toks) && t in toks
    ensures InText(sql, t)
    ensures Substitute(mode, sql, toks, t.z) == Replacement(mode, sql, t) + Substitute(mode, sql, toks, t.z + t.n)
  {
    hide Replacement;
    assert Starts(toks, t.z);
    assert forall u | u in toks && u.z == t.z :: u == t;
  }

  lemma ReplacesToken(mode: Mode, sql: string, toks: seq<Token>, t: Token, hi: nat)
    requires Tokens(sql, toks) && t in toks && t.z + t.n <= hi <= |sql|
    requires forall u | u in toks :: u.z <= t.z || hi <= u.z
    ensures Substitute(mode, sql, toks, t.z) ==
            Replacement(mode, sql, t) + sql[t.z + t.n..hi] + Substitute(mode, sql, toks, hi)
  {
    hide Substitute;
    hide Replacement;
    SubstitutesAt(mode, sql, toks, t);
    CopiesBetween(mode, sql, toks, t.z + t.n, hi);
  }

  // ----- How much a replacement can grow -----

  /** In quote-fixing, every token is a double-quoted literal. */
  ghost predicate Fits(mode: Mode, sql: string, t: Token)
    requires InText(sql, t)
  {
    mode.FixQuotes? ==> exists body :: Text(sql, t) == Quoted('"', body)
  }

  lemma ReplacementBound(mode: Mode, sql: string, t: Token)
    requires InText(sql, t) && Fits(mode, sql, t)
    ensures mode.Rename? ==> |Replacement(mode, sql, t)| <= |Quoted('"', mode.name)| + 1
    ensures mode.FixQuotes? ==> |Replacement(mode, sql, t)| <= 2 * t.n - 1
  {
    match mode
    case Rename(name, _) =>
      DoubledLength('"', name);
    case FixQuotes =>
      var body :| Text(sql, t) == Quoted('"', body);
      DequoteQuoted('"', body);
      DoubledLength('"', body);
      DoubledLength('\'', body);
  }

  /** A literal in these quotes with this value, and a space after it if the same quote character
      comes next. */
  ghost predicate IsLiteral(r: string, q: char, value: string, next: char) {
    exists lit: string ::
      && 2 <= |lit| && lit[0] == q && lit[|lit| - 1] == q && Dequote(lit) == value
      && r == lit + (if next == q then " " else "")
  }

  lemma QuotedIsLiteral(q: char, value: string, next: char)
    requires q in {'\'', '"', '`'}
    ensures IsLiteral(Quoted(q, value) + (if next == q then " " else ""), q, value, next)
  {
    DequoteQuoted(q, value);
    var lit := Quoted(q, value);
    assert lit[0] == q && lit[|lit| - 1] == q;
  }

  /** What a token is renamed to: never quoted, always quoted, or quoted as the token was. */
  lemma RenamesTo(name: string, quote: Quoting, sql: string, t: Token)
    requires InText(sql, t)
    ensures
      var r, first := Replacement(Rename(name, quote), sql, t), sql[t.z];
      && (quote == Never ==> r == name)
      && (quote == Always ==> IsLiteral(r, '"', name, After(sql, t)))
      && (quote == AsToken && IsIdChar(first) ==> r == name)
      && (quote == AsToken && IsQuote(first) ==> IsLiteral(r, '"', name, After(sql, t)))
  {
    QuotedIsLiteral('"', name, After(sql, t));
  }

  /** Quote-fixing keeps the value of the literal, and writes it in single quotes. */
  lemma FixKeepsValue(sql: string, t: Token)
    requires InText(sql, t)
    ensures IsLiteral(Replacement(FixQuotes, sql, t), '\'', Dequote(Text(sql, t)), After(sql, t))
  {
    QuotedIsLiteral('\'', Dequote(Text(sql, t)), After(sql, t));
  }

  // ----- The edited text means what it should -----

  /** The quotes a token is written in, if any, and the value it has then. */
  function QuoteOf(mode: Mode, sql: string, t: Token): Option<char>
    requires InText(sql, t)
  {
    if mode.FixQuotes? then Some('\'')
    else if mode.quote == Always || (mode.quote == AsToken && IsQuote(sql[t.z])) then Some('"')
    else None
  }

  ghost function ValueOf(mode: Mode, sql: string, t: Token): string
    requires InText(sql, t)
  {
    if mode.FixQuotes? then Dequote(Text(sql, t)) else mode.name
  }

  lemma ReplacementIsQuoted(mode: Mode, sql: string, t: Token)
    requires InText(sql, t) && QuoteOf(mode, sql, t).Some?
    ensures
      var q := QuoteOf(mode, sql, t).value;
      Replacement(mode, sql, t) == Quoted(q, ValueOf(mode, sql, t)) + (if After(sql, t) == q then " " else "")
  {
  }

  lemma CopiedNext(mode: Mode, sql: string, toks: seq<Token>, pos: nat)
    requires (forall t | t in toks :: InText(sql, t)) && !Starts(toks, pos)
    ensures
      var rest := Substitute(mode, sql, toks, pos);
      if pos < |sql| then rest != "" && rest[0] == sql[pos] else rest == ""
  {
  }

  lemma ReadsThrough(q: char, value: string, next: char, rest: string, z: string)
    requires q in {'\'', '"'} && z == Quoted(q, value) + (if next == q then " " else "") + rest
    ensures Dequote(z) == value <==> next == q || rest == "" || rest[0] != q
  {
    hide *;
    var space := if next == q then " " else "";
    assert Quoted(q, value) + space + rest == Quoted(q, value) + (space + rest);
    ReadsBackExactly(q, value, space + rest);
  }

  lemma EditedToken(mode: Mode, sql: string, toks: seq<Token>, t: Token)
    requires Tokens(sql, toks) && t in toks && InText(sql, t) && QuoteOf(mode, sql, t).Some?
    ensures
      var q := QuoteOf(mode, sql, t).value;
      q in {'\'', '"'} &&
      Substitute(mode, sql, toks, t.z) ==
        Quoted(q, ValueOf(mode, sql, t)) + (if After(sql, t) == q then " " else "") + Substitute(mode, sql, toks, t.z + t.n)
  {
    assert QuoteOf(mode, sql, t).value in {'\'', '"'};
    hide *;
    SubstitutesAt(mode, sql, toks, t);
    ReplacementIsQuoted(mode, sql, t);
  }

  /** Reading the edited text from where a quoted token was, one gets the token's new value if and
      only if a space was added or what follows in the edited text does not start with the quote
      character. */
  lemma EditedTokenReadsBack(mode: Mode, sql: string, toks: seq<Token>, t: Token)
    requires Tokens(sql, toks) && t in toks && InText(sql, t) && QuoteOf(mode, sql, t).Some?
    ensures
      var q, rest := QuoteOf(mode, sql, t).value, Substitute(mode, sql, toks, t.z + t.n);
      Dequote(Substitute(mode, sql, toks, t.z)) == ValueOf(mode, sql, t) <==>
      After(sql, t) == q || rest == "" || rest[0] != q
  {
    EditedToken(mode, sql, toks, t);
    var rest := Substitute(mode, sql, toks, t.z + t.n);
    hide *;
    ReadsThrough(QuoteOf(mode, sql, t).value, ValueOf(mode, sql, t), After(sql, t), rest, Substitute(mode, sql, toks, t.z));
  }

  /** So it is, wherever the next token does not follow without a gap. */
  lemma GapReadsBack(mode: Mode, sql: string, toks: seq<Token>, t: Token)
    requires Tokens(sql, toks) && t in toks && InText(sql, t) && QuoteOf(mode, sql, t).Some?
    requires !Starts(toks, t.z + t.n)
    ensures Dequote(Substitute(mode, sql, toks, t.z)) == ValueOf(mode, sql, t)
  {
    assert forall u | u in toks :: InText(sql, u);
    assert t.z + t.n < |sql| ==> After(sql, t) == sql[t.z + t.n];
    hide *;
    EditedTokenReadsBack(mode, sql, toks, t);
    CopiedNext(mode, sql, toks, t.z + t.n);
  }

  /** Two tokens without a gap: their new names run together. */
  lemma AdjacentTokensMerge()
    ensures
      var sql, toks := "\"x\"[x]", [Token(0, 3), Token(3, 3)];
      && Tokens(sql, toks)
      && Substitute(Rename("n", Always), sql, toks, 0) == "\"n\"\"n\""
      && Dequote("\"n\"\"n\"") == "n\"n"
  {
    var sql, toks, mode := "\"x\"[x]", [Token(0, 3), Token(3, 3)], Rename("n", Always);
    assert toks[0] in toks && toks[1] in toks;
    SubstitutesAt(mode, sql, toks, Token(0, 3));
    SubstitutesAt(mode, sql, toks, Token(3, 3));
    assert Substitute(mode, sql, toks, 6) == "";
    assert Quoted('"', "n") == "\"n\"";
    var z := "\"n\"\"n\"";
    assert DequoteFrom(z, 4, '"') == "n";
    assert DequoteFrom(z, 2, '"') == "\"n";
  }

  // ----- No NUL inside the result -----

  ghost predicate NoNul(s: string) { '\0' !in s }

  lemma {:induction false} DoubledNoNul(q: char, body: string)
    requires NoNul(body) && q != '\0'
    ensures NoNul(Doubled(q, body))
  {
    if body != "" {
      DoubledNoNul(q, body[1..]);
    }
  }

  lemma {:induction false} DequoteNoNul(z: string, i: nat, q: char)
    requires NoNul(z) && q != '\0'
    ensures NoNul(DequoteFrom(z, i, q))
    decreases |z| - i
  {
    if i < |z| {
      DequoteNoNul(z, i + 1, q);
      DequoteNoNul(z, i + 2, q);
    }
  }

  lemma ReplacementNoNul(mode: Mode, sql: string, t: Token)
    requires InText(sql, t) && NoNul(sql) && (mode.Rename? ==> NoNul(mode.name))
    ensures NoNul(Replacement(mode, sql, t))
  {
    match mode
    case Rename(name, _) => DoubledNoNul('"', name);
    case FixQuotes =>
      assert NoNul(Text(sql, t));
      DequoteNoNul(Text(sql, t), 1, Closing(Text(sql, t)[0]));
      DoubledNoNul('\'', Dequote(Text(sql, t)));
  }

  lemma {:induction false} SubstituteNoNul(mode: Mode, sql: string, toks: seq<Token>, pos: nat)
    requires (forall t | t in toks :: InText(sql, t)) && NoNul(sql) && (mode.Rename? ==> NoNul(mode.name))
    ensures NoNul(Substitute(mode, sql, toks, pos))
    decreases |sql| - pos
  {
    hide Replacement;
    if pos < |sql| {
      SubstituteNoNul(mode, sql, toks, pos + 1);
      forall t | t in toks && t.z == pos
        ensures NoNul(Replacement(mode, sql, t)) && NoNul(Substitute(mode, sql, toks, pos + t.n))
      {
        ReplacementNoNul(mode, sql, t);
        SubstituteNoNul(mode, sql, toks, pos + t.n);
      }
    }
  }

  // ----- Buffers -----

  method MemCpy(a: array<char>, at: nat, s: string)
    requires at + |s| <= a.Length
    modifies a
    ensures a[..] == old(a[..at]) + s + old(a[at + |s|..])
  {
    forall k | 0 <= k < |s| {
      a[at + k] := s[k];
    }
  }

  /** memmove: the source is read before anything is written. */
  method MemMove(a: array<char>, dst: nat, src: nat, len: nat)
    requires dst + len <= a.Length && src + len <= a.Length
    modifies a
    ensures a[..] == old(a[..dst]) + old(a[src..src + len]) + old(a[dst + len..])
  {
    forall k | 0 <= k < len {
      a[dst + k] := a[src + k];
    }
  }

  /** sqlite3_snprintf into a buffer of the given size: what does not fit is cut off. */
  method Snprintf(a: array<char>, size: nat, s: string) returns (len: nat)
    requires 0 < size <= a.Length
    modifies a
    ensures len == (if |s| < size then |s| else size - 1) && a[..len] == s[..len] && a[len] == '\0'
  {
    len := if |s| < size then |s| else size - 1;
    MemCpy(a, 0, s[..len]);
    a[len] := '\0';
  }

  /** The C string in a buffer: everything before the first NUL. */
  method CString(a: array<char>, ghost len: nat) returns (s: string)
    requires len < a.Length && NoNul(a[..len]) && a[len] == '\0'
    ensures s == a[..len]
  {
    var k := 0;
    while a[k] != '\0'
      invariant k <= len && forall m | 0 <= m < len :: a[m] == a[..len][m]
      decreases len - k
    {
      k := k + 1;
    }
    s := a[..k];
  }

  /** One character of the loop: what is copied, and where reading goes on. */
  lemma DequoteStep(z: string, i: nat, q: char)
    requires Closes(z, i, q) && (z[i] != q || (i + 1 < |z| && z[i + 1] == q))
    ensures var next := if z[i] == q then i + 2 else i + 1;
      Closes(z, next, q) && DequoteFrom(z, i, q) == [z[i]] + DequoteFrom(z, next, q)
  {
  }

  lemma DequoteStops(z: string, i: nat, q: char)
    requires Closes(z, i, q) && z[i] == q && !(i + 1 < |z| && z[i + 1] == q)
    ensures DequoteFrom(z, i, q) == ""
  {
  }

  lemma ClosesInside(z: string, i: nat, q: char)
    requires Closes(z, i, q)
    ensures i < |z|
  {
  }

  /** The loop state: the front of the buffer holds what has been dequoted, and the part not yet
      read is still the text. */
  ghost predicate Dequoting(z: string, q: char, buf: string, i: nat, j: nat) {
    && j < i < |z| < |buf| && buf[|z|] == '\0' && (forall k | i <= k < |z| :: buf[k] == z[k])
    && Closes(z, i, q) && buf[..j] + DequoteFrom(z, i, q) == DequoteFrom(z, 1, q)
  }

  lemma CopyOne(front: string, c: char, rest: string)
    ensures front + [c] + rest == front + ([c] + rest)
  {
  }

  lemma DequotingStep(z: string, q: char, buf: string, i: nat, j: nat)
    requires Dequoting(z, q, buf, i, j) && q != '\0' && (buf[i] != q || buf[i + 1] == q)
    ensures var next := if buf[i] == q then i + 2 else i + 1;
      Dequoting(z, q, buf[j := buf[i]], next, j + 1)
  {
    var c, next := buf[i], if buf[i] == q then i + 2 else i + 1;
    assert c == z[i];
    assert c == q ==> i + 1 < |z| && buf[i + 1] == z[i + 1];
    DequoteStep(z, i, q);
    ClosesInside(z, next, q);
    hide Closes;
    hide DequoteFrom;
    assert buf[j := c][..j + 1] == buf[..j] + [c];
    CopyOne(buf[..j], c, DequoteFrom(z, next, q));
  }

  /** sqlite3Dequote: the text is overwritten from its start while it is still being read. */
  method DequoteInPlace(a: array<char>, len: nat) returns (n: nat)
    requires 0 < len < a.Length && a[len] == '\0' && NoNul(a[..len])
    requires IsQuote(a[0]) ==> Closes(a[..len], 1, Closing(a[0]))
    modifies a
    ensures n < a.Length && a[n] == '\0' && a[..n] == Dequote(old(a[..len]))
  {
    ghost var z := a[..len];
    assert z[0] == a[0];
    if !IsQuote(a[0]) {
      return len;
    }
    var q := Closing(a[0]);
    var i, j := 1, 0;
    ClosesInside(z, 1, q);
    hide Closes;
    hide DequoteFrom;
    assert a[..][..0] == [];
    while a[i] != q || a[i + 1] == q
      invariant Dequoting(z, q, a[..], i, j)
      decreases len - i
    {
      DequotingStep(z, q, a[..], i, j);
      ghost var buf := a[..];
      var c := a[i];
      if c == q {
        i := i + 1;
      }
      a[j] := c;
      assert a[..] == buf[j := c];
      i, j := i + 1, j + 1;
    }
    ghost var buf := a[..];
    assert buf[i] == z[i] && (i + 1 < len ==> buf[i + 1] == z[i + 1]);
    DequoteStops(z, i, q);
    assert buf[..j] + "" == buf[..j];
    a[j] := '\0';
    assert a[..j] == buf[..j];
    n := j;
  }

  /** The closing quote is there, so that the loop stops before the end of the text. */
  ghost predicate Closes(z: string, i: nat, q: char)
    decreases |z| - i
  {
    && i < |z|
    && if z[i] != q then Closes(z, i + 1, q)
       else i + 1 < |z| && z[i + 1] == q ==> Closes(z, i + 2, q)
  }

  lemma {:induction false} QuotedCloses(q: char, front: string, body: string)
    ensures Closes(front + Doubled(q, body) + [q], |front|, q)
    decreases body
  {
    if body != "" {
      var first := if body[0] == q then [q, q] else [body[0]];
      assert front + Doubled(q, body) + [q] == (front + first) + Doubled(q, body[1..]) + [q];
      QuotedCloses(q, front + first, body[1..]);
    }
  }

  // ----- The editor -----

  function Without(s: seq<Token>, k: nat): seq<Token>
    requires k < |s|
  {
    s[..k] + s[k + 1..]
  }

  lemma WithoutTokens(sql: string, toks: seq<Token>, k: nat)
    requires Tokens(sql, toks) && k < |toks|
    ensures Tokens(sql, Without(toks, k))
  {
    var rest := Without(toks, k);
    forall i | 0 <= i < |rest| ensures rest[i] == toks[if i < k then i else i + 1] {}
  }

  lemma WithoutContents(toks: seq<Token>, k: nat, t: Token)
    requires k < |toks|
    ensures t in Without(toks, k) ==> exists j :: 0 <= j < |toks| && j != k && toks[j] == t
    ensures t in toks ==> t == toks[k] || t in Without(toks, k)
  {
    var rest := Without(toks, k);
    if t in rest {
      var i :| 0 <= i < |rest| && rest[i] == t;
      assert rest[i] == toks[if i < k then i else i + 1];
    }
    if t in toks {
      var j :| 0 <= j < |toks| && toks[j] == t;
      assert j < k ==> rest[j] == t;
      assert j > k ==> rest[j - 1] == t;
    }
  }

  lemma BeforeRightmost(sql: string, toks: seq<Token>, j: nat, k: nat)
    requires Tokens(sql, toks) && j < |toks| && k < |toks| && j != k && toks[j].z <= toks[k].z
    ensures toks[j].z + toks[j].n <= toks[k].z
  {
    assert InText(sql, toks[k]) && InText(sql, toks[j]);
    assert j < k ==> Disjoint(toks[j], toks[k]);
    assert k < j ==> Disjoint(toks[k], toks[j]);
  }

  /** The right-most token goes; everything left in the list ends before it starts. */
  lemma PickedIsRightmost(sql: string, toks: seq<Token>, k: nat)
    requires Tokens(sql, toks) && k < |toks| && forall t | t in toks :: t.z <= toks[k].z
    ensures Tokens(sql, Without(toks, k))
    ensures forall t | t in Without(toks, k) :: t in toks && t.z + t.n <= toks[k].z
    ensures forall t | t in toks :: t == toks[k] || t in Without(toks, k)
  {
    hide Tokens;
    hide Without;
    WithoutTokens(sql, toks, k);
    forall t | t in Without(toks, k) ensures t in toks && t.z + t.n <= toks[k].z {
      WithoutContents(toks, k, t);
      var j :| 0 <= j < |toks| && j != k && toks[j] == t;
      BeforeRightmost(sql, toks, j, k);
    }
    forall t | t in toks ensures t == toks[k] || t in Without(toks, k) {
      WithoutContents(toks, k, t);
    }
  }

  /** A token of the parser's list, with the parse-tree element it belongs to. */
  datatype Named = Named(p: nat, t: Token)

  class ParseTokens {
    var rename: seq<Named>

    /** renameTokenFind without a context: the token is only looked up. */
    method Lookup(p: nat) returns (found: bool, t: Token)
      ensures found <==> exists k :: 0 <= k < |rename| && rename[k].p == p
      ensures found ==> exists k ::
        0 <= k < |rename| && rename[k] == Named(p, t) && forall m | 0 <= m < k :: rename[m].p != p
    {
      t := Token(0, 0);
      var k := 0;
      while k < |rename|
        invariant 0 <= k <= |rename|
        invariant forall m | 0 <= m < k :: rename[m].p != p
      {
        if rename[k].p == p {
          return true, rename[k].t;
        }
        k := k + 1;
      }
      return false, t;
    }
  }

  class RenameCtx {
    var list: seq<Token>
    var nList: nat

    /** renameTokenFind: the first token of the element moves to the front of this list, and is
        counted. */
    method TokenFind(parse: ParseTokens, p: nat) returns (found: bool)
      requires |list| <= nList
      modifies this, parse
      ensures |list| <= nList
      ensures found <==> exists k :: 0 <= k < |old(parse.rename)| && old(parse.rename)[k].p == p
      ensures !found ==> list == old(list) && nList == old(nList) && parse.rename == old(parse.rename)
      ensures found ==> exists k ::
        && 0 <= k < |old(parse.rename)| && old(parse.rename)[k].p == p
        && (forall m | 0 <= m < k :: old(parse.rename)[m].p != p)
        && list == [old(parse.rename)[k].t] + old(list) && nList == old(nList) + 1
        && parse.rename == old(parse.rename)[..k] + old(parse.rename)[k + 1..]
    {
      var k := 0;
      while k < |parse.rename|
        invariant 0 <= k <= |parse.rename| && parse.rename == old(parse.rename)
        invariant list == old(list) && nList == old(nList)
        invariant forall m | 0 <= m < k :: parse.rename[m].p != p
      {
        if parse.rename[k].p == p {
          list, nList := [parse.rename[k].t] + list, nList + 1;
          parse.rename := parse.rename[..k] + parse.rename[k + 1..];
          return true;
        }
        k := k + 1;
      }
      return false;
    }

    /** renameColumnTokenNext: unlink the token with the greatest offset. */
    method Next() returns (best: Token, ghost k: nat)
      requires list != []
      modifies this`list
      ensures k < |old(list)| && best == old(list)[k] && list == Without(old(list), k)
      ensures forall t | t in old(list) :: t.z <= best.z
    {
      var b, i := 0, 1;
      while i < |list|
        invariant 0 <= b < i <= |list|
        invariant forall m | 0 <= m < i :: list[m].z <= list[b].z
      {
        if list[i].z > list[b].z {
          b := i;
        }
        i := i + 1;
      }
      best, k := list[b], b;
      var pp := 0;
      while pp != b
        invariant pp <= b
      {
        pp := pp + 1;
      }
      list := list[..pp] + list[pp + 1..];
    }

    /** renameEditSql. The result is the simultaneous substitution of all listed tokens. Every
        buffer has exactly the size the source allocates, and every access to it is in range. */
    method EditSql(sql: string, mode: Mode) returns (out: string)
      requires |list| <= nList && Tokens(sql, list) && NoNul(sql)
      requires mode.Rename? ==> NoNul(mode.name)
      requires forall t | t in list :: Fits(mode, sql, t)
      modifies this`list
      ensures list == []
      ensures out == Substitute(mode, sql, old(list), 0)
    {
      var nSql := |sql|;
      var nQuot := match mode case Rename(name, _) => |Quoted('"', name)| case FixQuotes => 0;
      assert nList * nQuot >= 0;
      var size := if mode.Rename? then nSql + nList * nQuot + 1 else nSql * 2 + 1;
      var zOut := new char[size](_ => '\0');
      var zBuf1 := new char[nSql * 2 + 1](_ => '\0');
      var zBuf2 := new char[nSql * 2 + 1](_ => '\0');
      var nOut: nat := nSql;
      MemCpy(zOut, 0, sql);
      ghost var all := list;
      ghost var b: nat := nSql;
      EditStart(mode, sql, all, zOut[..]);
      RoomStart(mode, |list|, nSql, nList, nQuot);
      while list != []
        invariant Editing(mode, sql, all, list, b, zOut[..], nOut)
        invariant Room(mode, nOut, b, |list|, nSql, nList, nQuot)
        decreases |list|
      {
        nOut, b := ReplaceNext(mode, sql, all, b, zOut, nOut, nQuot, zBuf1, zBuf2);
      }
      EditEnd(mode, sql, all, b, zOut[..], nOut);
      assert zOut[..nOut] == zOut[..][..nOut];
      out := CString(zOut, nOut);
    }

    /** One round of the editing loop. */
    method ReplaceNext(mode: Mode, sql: string, ghost all: seq<Token>, ghost b: nat, zOut: array<char>, nOut: nat,
                       ghost nQuot: nat, zBuf1: array<char>, zBuf2: array<char>)
      returns (n: nat, ghost c: nat)
      requires list != [] && Editing(mode, sql, all, list, b, zOut[..], nOut) && NoNul(sql)
      requires Room(mode, nOut, b, |list|, |sql|, nList, nQuot)
      requires forall t | t in all :: InText(sql, t) && Fits(mode, sql, t)
      requires mode.Rename? ==> nQuot == |Quoted('"', mode.name)| && zOut.Length == |sql| + nList * nQuot + 1
      requires mode.FixQuotes? ==> zOut.Length == 2 * |sql| + 1
      requires zBuf1 != zBuf2 && zOut != zBuf1 && zOut != zBuf2 && zBuf1.Length == zBuf2.Length == 2 * |sql| + 1
      modifies this`list, zOut, zBuf1, zBuf2
      ensures |list| == |old(list)| - 1
      ensures Editing(mode, sql, all, list, c, zOut[..], n)
      ensures Room(mode, n, c, |list|, |sql|, nList, nQuot)
    {
      hide Substitute;
      hide Replacement;
      hide Fits;
      ghost var before, buf := list, zOut[..];
      var best, k := Next();
      assert best in before;
      var text := ReplacementText(mode, sql, best, zBuf1, zBuf2);
      ReplacementBound(mode, sql, best);
      RoomAfter(mode, nOut, b, |before|, |sql|, nList, nQuot, best, |text|);
      n := Splice(zOut, nOut, best, text);
      c := best.z;
      EditStep(mode, sql, all, before, k, b, buf, nOut, zOut[..], n);
    }
  }

  lemma EditStart(mode: Mode, sql: string, all: seq<Token>, buf: string)
    requires Tokens(sql, all) && |sql| < |buf| && buf[..|sql|] == sql && buf[|sql|] == '\0'
    ensures Editing(mode, sql, all, all, |sql|, buf, |sql|)
  {
    forall t | t in all ensures InText(sql, t) {}
  }

  lemma EditEnd(mode: Mode, sql: string, all: seq<Token>, b: nat, buf: string, nOut: nat)
    requires Editing(mode, sql, all, [], b, buf, nOut)
    requires NoNul(sql) && (mode.Rename? ==> NoNul(mode.name))
    ensures buf[..nOut] == Substitute(mode, sql, all, 0) && NoNul(buf[..nOut])
  {
    CopiesBetween(mode, sql, all, 0, b);
    SubstituteNoNul(mode, sql, all, 0);
  }

  lemma EditStep(mode: Mode, sql: string, all: seq<Token>, list: seq<Token>, k: nat, b: nat,
                 buf: string, nOut: nat, buf': string, n: nat)
    requires Editing(mode, sql, all, list, b, buf, nOut) && k < |list|
    requires forall t | t in list :: t.z <= list[k].z
    requires InText(sql, list[k]) && list[k].z + list[k].n <= nOut
    requires n < |buf'| && buf'[n] == '\0'
    requires buf'[..n] == buf[..list[k].z] + Replacement(mode, sql, list[k]) + buf[..nOut][list[k].z + list[k].n..]
    ensures Editing(mode, sql, all, Without(list, k), list[k].z, buf', n)
  {
    var t := list[k];
    PickedIsRightmost(sql, list, k);
    assert t in list;
    EditedSoFar(mode, sql, all, t, b, Replacement(mode, sql, t));
    assert buf[..t.z] == buf[..nOut][..t.z] == sql[..t.z];
  }

  /** The loop invariant: to the left of `b` the buffer still holds the original text, whose
      remaining tokens therefore are where their offsets say; the rest is edited. */
  ghost predicate Editing(mode: Mode, sql: string, all: seq<Token>, list: seq<Token>, b: nat, buf: string, nOut: nat) {
    && b <= |sql| && nOut < |buf| && buf[nOut] == '\0'
    && Tokens(sql, all) && Tokens(sql, list)
    && (forall t | t in list :: t in all && t.z + t.n <= b)
    && (forall t | t in all :: InText(sql, t) && (t in list || b <= t.z))
    && buf[..nOut] == sql[..b] + Substitute(mode, sql, all, b)
  }

  /** What is still free in the output buffer. */
  predicate Room(mode: Mode, nOut: nat, b: nat, left: nat, nSql: nat, nList: nat, nQuot: nat) {
    match mode
    case Rename(_, _) => nOut + left * nQuot <= nSql + nList * nQuot
    case FixQuotes => nOut + b <= 2 * nSql
  }

  lemma RoomStart(mode: Mode, left: nat, nSql: nat, nList: nat, nQuot: nat)
    requires left <= nList
    ensures Room(mode, nSql, nSql, left, nSql, nList, nQuot)
  {
    assert nList * nQuot == left * nQuot + (nList - left) * nQuot;
    assert (nList - left) * nQuot >= 0;
  }

  lemma RoomAfter(mode: Mode, nOut: nat, b: nat, left: nat, nSql: nat, nList: nat, nQuot: nat, t: Token, r: nat)
    requires Room(mode, nOut, b, left, nSql, nList, nQuot) && left > 0 && t.n > 0 && t.z + t.n <= b
    requires t.n <= nOut && (mode.Rename? ==> r <= nQuot + 1) && (mode.FixQuotes? ==> r <= 2 * t.n - 1)
    ensures Room(mode, nOut + r - t.n, t.z, left - 1, nSql, nList, nQuot)
    ensures mode.Rename? ==> nOut + r - t.n <= nSql + nList * nQuot
    ensures mode.FixQuotes? ==> nOut + r - t.n <= 2 * nSql
  {
    assert (left - 1) * nQuot == left * nQuot - nQuot;
    assert (left - 1) * nQuot >= 0;
  }

  lemma KeepsTail(sql: string, z: nat, next: nat, b: nat, text: string, rest: string)
    requires z <= next <= b <= |sql|
    ensures sql[..z] + text + (sql[..b] + rest)[next..] == sql[..z] + (text + sql[next..b] + rest)
  {
    assert (sql[..b] + rest)[next..] == sql[next..b] + rest;
  }

  lemma EditedSoFar(mode: Mode, sql: string, toks: seq<Token>, t: Token, b: nat, text: string)
    requires Tokens(sql, toks) && t in toks && t.z + t.n <= b <= |sql|
    requires forall u | u in toks :: u.z <= t.z || b <= u.z
    requires text == Replacement(mode, sql, t)
    ensures sql[..t.z] + text + (sql[..b] + Substitute(mode, sql, toks, b))[t.z + t.n..] ==
            sql[..t.z] + Substitute(mode, sql, toks, t.z)
  {
    hide Substitute;
    hide Replacement;
    ReplacesToken(mode, sql, toks, t, b);
    hide Tokens;
    KeepsTail(sql, t.z, t.z + t.n, b, text, Substitute(mode, sql, toks, b));
  }

  lemma Moved(o: string, z: nat, n: nat, len: nat, nOut: nat, w: string)
    requires z + n <= nOut < |o| && nOut + len - n < |o|
    requires w == o[..z + len] + o[z + n..nOut] + o[nOut + len - n..]
    ensures w[..z] == o[..z] && w[z + len..nOut + len - n] == o[..nOut][z + n..]
  {
  }

  /** Move what follows the token to where it belongs after the replacement. */
  method MakeRoom(zOut: array<char>, nOut: nat, t: Token, len: nat) returns (n: nat)
    requires t.z + t.n <= nOut < zOut.Length && nOut + len - t.n < zOut.Length && zOut[nOut] == '\0'
    modifies zOut
    ensures n == nOut + len - t.n && zOut[n] == '\0'
    ensures zOut[..][..t.z] == old(zOut[..])[..t.z] && zOut[..][t.z + len..n] == old(zOut[..])[..nOut][t.z + t.n..]
  {
    ghost var o := zOut[..];
    n := nOut;
    if t.n != len {
      MemMove(zOut, t.z + len, t.z + t.n, nOut - (t.z + t.n));
      ghost var w := zOut[..];
      Moved(o, t.z, t.n, len, nOut, w);
      n := nOut + len - t.n;
      zOut[n] := '\0';
      assert zOut[..] == w[n := '\0'];
    }
  }

  lemma Pasted(v: string, z: nat, text: string, n: nat, w: string)
    requires z + |text| <= n < |v| && w == v[..z] + text + v[z + |text|..]
    ensures w[..n] == v[..z] + text + v[z + |text|..n] && w[n] == v[n]
  {
  }

  /** Replace one token in the buffer, moving what follows it. */
  method Splice(zOut: array<char>, nOut: nat, t: Token, text: string) returns (n: nat)
    requires t.z + t.n <= nOut < zOut.Length && nOut + |text| - t.n < zOut.Length && zOut[nOut] == '\0'
    modifies zOut
    ensures n == nOut + |text| - t.n && zOut[n] == '\0'
    ensures zOut[..][..n] == old(zOut[..][..t.z]) + text + old(zOut[..][..nOut][t.z + t.n..])
  {
    n := MakeRoom(zOut, nOut, t, |text|);
    ghost var v := zOut[..];
    MemCpy(zOut, t.z, text);
    Pasted(v, t.z, text, n, zOut[..]);
  }

  lemma LiteralCloses(sql: string, t: Token)
    requires InText(sql, t) && Fits(FixQuotes, sql, t)
    ensures var text := Text(sql, t); text != "" && text[0] == '"' && Closes(text, 1, Closing(text[0]))
  {
    var body :| Text(sql, t) == Quoted('"', body);
    QuotedCloses('"', ['"'], body);
  }

  /** The quote-fixing replacement of one token, built in the two scratch buffers; the bounded
      print never cuts it off. */
  method FixedText(sql: string, t: Token, zBuf1: array<char>, zBuf2: array<char>) returns (text: string)
    requires InText(sql, t) && NoNul(sql) && Fits(FixQuotes, sql, t)
    requires zBuf1 != zBuf2 && zBuf1.Length == zBuf2.Length == 2 * |sql| + 1
    modifies zBuf1, zBuf2
    ensures text == Replacement(FixQuotes, sql, t)
  {
    hide Dequote;
    ReplacementBound(FixQuotes, sql, t);
    LiteralCloses(sql, t);
    hide Fits;
    hide Closes;
    MemCpy(zBuf1, 0, Text(sql, t));
    zBuf1[t.n] := '\0';
    assert zBuf1[..t.n] == Text(sql, t);
    var m := DequoteInPlace(zBuf1, t.n);
    var printed := Quoted('\'', zBuf1[..m]) + (if After(sql, t) == '\'' then " " else "");
    assert printed == Replacement(FixQuotes, sql, t);
    var len := Snprintf(zBuf2, 2 * |sql|, printed);
    text := zBuf2[..len];
  }

  method ReplacementText(mode: Mode, sql: string, t: Token, zBuf1: array<char>, zBuf2: array<char>) returns (text: string)
    requires InText(sql, t) && NoNul(sql) && Fits(mode, sql, t)
    requires zBuf1 != zBuf2 && zBuf1.Length == zBuf2.Length == 2 * |sql| + 1
    modifies zBuf1, zBuf2
    ensures text == Replacement(mode, sql, t)
  {
    match mode {
      case Rename(name, quote) =>
        if quote == Never || (quote == AsToken && IsIdChar(sql[t.z])) {
          text := name;
        } else {
          text := Quoted('"', name) + " ";
          text := text[..|text| - (if After(sql, t) == '"' then 0 else 1)];
        }
      case FixQuotes =>
        text := FixedText(sql, t, zBuf1, zBuf2);
    }
  }
}
