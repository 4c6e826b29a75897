// Daily note file names: the strict date-format subset, its rendering, and the note path it resolves to.
module DailyFormat {
  import opened Text

  datatype Date = Date(year: nat, month: nat, day: nat)

  function DaysInMonth(year: nat, month: nat): nat {
    if month == 2 then (if year % 4 == 0 && (year % 100 != 0 || year % 400 == 0) then 29 else 28)
    else if month == 4 || month == 6 || month == 9 || month == 11 then 30
    else 31
  }

  predicate ValidDate(d: Date) {
    1 <= d.year <= 9999 && 1 <= d.month <= 12 && 1 <= d.day <= DaysInMonth(d.year, d.month)
  }

  // The Gregorian calendar, for the years a date can have.
  lemma CalendarExact(d: Date)
    ensures ValidDate(d) <==>
      && 1 <= d.year <= 9999 && d.day >= 1
      && (d.month in {1, 3, 5, 7, 8, 10, 12} ==> d.day <= 31)
      && (d.month in {4, 6, 9, 11} ==> d.day <= 30)
      && (d.month == 2 ==> d.day <= 29 && (d.day == 29 ==> d.year % 400 == 0 || (d.year % 4 == 0 && d.year % 100 != 0)))
      && 1 <= d.month <= 12
  {
  }

  predicate IsAlpha(c: char) { 'a' <= c <= 'z' || 'A' <= c <= 'Z' }
  predicate AllDigits(s: string) { forall c | c in s :: IsDigit(c) }
  predicate IsSafeLiteral(c: char) { c == '-' || c == '.' || c == '_' || c == '/' }

  predicate IsToken(letters: string) {
    || letters == "YYYY" || letters == "YY"
    || letters == "MM" || letters == "M"
    || letters == "DD" || letters == "D"
  }

  const FORMAT_MAX_LEN: nat := 64

  // A format cut into its maximal alphabetic runs and the single characters between them.
  datatype Piece = Literal(c: char) | Run(letters: string)

  function AlphaRun(s: string): (n: nat)
    ensures n <= |s|
    ensures s != "" && IsAlpha(s[0]) ==> n > 0
    ensures n < |s| ==> !IsAlpha(s[n])
  {
    if s != "" && IsAlpha(s[0]) then 1 + AlphaRun(s[1..]) else 0
  }

  ghost function Pieces(fmt: string): seq<Piece>
    decreases |fmt|
  {
    if fmt == "" then []
    else if IsAlpha(fmt[0]) then [Run(fmt[..AlphaRun(fmt)])] + Pieces(fmt[AlphaRun(fmt)..])
    else [Literal(fmt[0])] + Pieces(fmt[1..])
  }

  ghost predicate ValidPiece(p: Piece) {
    match p
    case Literal(c) => IsSafeLiteral(c)
    case Run(letters) => IsToken(letters)
  }

  ghost predicate ValidFormat(fmt: string) {
    && fmt != "" && |fmt| <= FORMAT_MAX_LEN
    && AllValid(Pieces(fmt)) && HasToken(Pieces(fmt))
  }

  ghost predicate AllValid(ps: seq<Piece>) {
    forall p | p in ps :: ValidPiece(p)
  }

  ghost predicate HasToken(ps: seq<Piece>) {
    exists p | p in ps :: p.Run?
  }

  // ----- rendering one token -----

  function DigitOf(k: nat): char
    requires k < 10
  {
    ('0' as int + k) as char
  }

  function TwoDigits(n: nat): string
    requires n < 100
  {
    [DigitOf(n / 10), DigitOf(n % 10)]
  }

  // The calendar field a token shows.
  function TokenValue(token: string, d: Date): nat {
    if token == "YYYY" then d.year
    else if token == "YY" then d.year % 100
    else if token == "MM" || token == "M" then d.month
    else d.day
  }

  function FormatToken(token: string, d: Date): string
    requires ValidDate(d)
  {
    if token == "YYYY" then TwoDigits(d.year / 100) + TwoDigits(d.year % 100)
    else if token == "YY" then TwoDigits(d.year % 100)
    else if token == "MM" then TwoDigits(d.month)
    else if token == "M" then (if d.month < 10 then [DigitOf(d.month)] else TwoDigits(d.month))
    else if token == "DD" then TwoDigits(d.day)
    else (if d.day < 10 then [DigitOf(d.day)] else TwoDigits(d.day))
  }

  lemma DigitsInjective(a: nat, b: nat)
    requires a < 10 && b < 10
    ensures IsDigit(DigitOf(a)) && (DigitOf(a) == DigitOf(b) <==> a == b)
  {
  }

  lemma TwoDigitsInjective(a: nat, b: nat)
    requires a < 100 && b < 100
    ensures AllDigits(TwoDigits(a)) && |TwoDigits(a)| == 2
    ensures TwoDigits(a) == TwoDigits(b) <==> a == b
  {
    DigitsInjective(a / 10, b / 10);
    DigitsInjective(a % 10, b % 10);
    assert TwoDigits(a)[0] == DigitOf(a / 10) && TwoDigits(a)[1] == DigitOf(a % 10);
    assert TwoDigits(b)[0] == DigitOf(b / 10) && TwoDigits(b)[1] == DigitOf(b % 10);
  }

  // A token's text is a digit string that determines the field it shows.
  lemma FormatTokenExact(token: string, d: Date, e: Date)
    requires ValidDate(d) && ValidDate(e)
    ensures AllDigits(FormatToken(token, d))
    ensures FormatToken(token, d) == FormatToken(token, e) <==> TokenValue(token, d) == TokenValue(token, e)
  {
    hide DigitOf, TwoDigits;
    TwoDigitsInjective(d.year / 100, e.year / 100);
    TwoDigitsInjective(d.year % 100, e.year % 100);
    TwoDigitsInjective(d.month, e.month);
    TwoDigitsInjective(d.day, e.day);
    if token == "YYYY" {
      var (a, b, c, f) := (TwoDigits(d.year / 100), TwoDigits(d.year % 100), TwoDigits(e.year / 100), TwoDigits(e.year % 100));
      TwoDigitsInjective(e.year / 100, d.year / 100);
      assert (a + b)[..2] == a && (c + f)[..2] == c && (a + b)[2..] == b && (c + f)[2..] == f;
    } else if token == "M" {
      PlainNumber(d.month, e.month);
    } else if token != "YY" && token != "MM" && token != "DD" {
      PlainNumber(d.day, e.day);
    }
  }

  lemma PlainNumber(a: nat, b: nat)
    requires a < 100 && b < 100
    ensures var s, t := if a < 10 then [DigitOf(a)] else TwoDigits(a), if b < 10 then [DigitOf(b)] else TwoDigits(b);
      AllDigits(s) && (s == t <==> a == b)
  {
    TwoDigitsInjective(a, b);
    TwoDigitsInjective(b, a);
    if a < 10 && b < 10 {
      DigitsInjective(a, b);
      assert [DigitOf(a)][0] == DigitOf(a) && [DigitOf(b)][0] == DigitOf(b);
    } else if a < 10 {
      DigitsInjective(a, a);
    }
  }

  // The number a digit string shows.
  function Number(s: string): nat {
    if s == "" then 0 else 10 * Number(s[..|s| - 1]) + if '0' <= s[|s| - 1] then (s[|s| - 1] as int) - ('0' as int) else 0
  }

  lemma NumberOfOne(c: char)
    requires IsDigit(c)
    ensures Number([c]) == (c as int) - ('0' as int)
  {
    assert [c][..0] == "";
  }

  lemma NumberOfTwo(n: nat)
    requires n < 100
    ensures Number(TwoDigits(n)) == n && Number([DigitOf(n % 10)]) == n % 10
  {
    assert TwoDigits(n)[..1] == [DigitOf(n / 10)];
    NumberOfOne(DigitOf(n / 10));
    NumberOfOne(DigitOf(n % 10));
  }

  lemma NumberOfFour(a: nat, b: nat)
    requires a < 100 && b < 100
    ensures Number(TwoDigits(a) + TwoDigits(b)) == 100 * a + b
  {
    NumberOfTwo(a);
    NumberOfTwo(b);
    var s := TwoDigits(a) + TwoDigits(b);
    assert s[..3] == TwoDigits(a) + [DigitOf(b / 10)] && s[..3][..2] == TwoDigits(a);
  }

  // A token's text is its field in decimal: the year in four digits or its last two, month and day in two
  // digits or as many as they need.
  lemma TokenText(token: string, d: Date)
    requires token in {"YYYY", "YY", "MM", "M", "DD", "D"} && ValidDate(d)
    ensures IsToken(token) && AllDigits(FormatToken(token, d))
    ensures token == "YYYY" ==> Number(FormatToken(token, d)) == d.year && |FormatToken(token, d)| == 4
    ensures token == "YY" ==> Number(FormatToken(token, d)) == d.year % 100 && |FormatToken(token, d)| == 2
    ensures token == "MM" || token == "M" ==> Number(FormatToken(token, d)) == d.month
    ensures token == "DD" || token == "D" ==> Number(FormatToken(token, d)) == d.day
    ensures token == "MM" || token == "DD" ==> |FormatToken(token, d)| == 2
    ensures token == "M" ==> |FormatToken(token, d)| == if d.month < 10 then 1 else 2
    ensures token == "D" ==> |FormatToken(token, d)| == if d.day < 10 then 1 else 2
  {
    hide Number;
    FormatTokenExact(token, d, d);
    NumberOfFour(d.year / 100, d.year % 100);
    NumberOfTwo(d.year % 100);
    NumberOfTwo(d.month);
    NumberOfTwo(d.day);
  }

  // ----- rendering a format -----

  function PieceText(p: Piece, d: Date): string
    requires ValidDate(d)
  {
    match p
    case Literal(c) => [c]
    case Run(letters) => FormatToken(letters, d)
  }

  function RenderPieces(ps: seq<Piece>, d: Date): string
    requires ValidDate(d)
  {
    if ps == [] then "" else PieceText(ps[0], d) + RenderPieces(ps[1..], d)
  }

  ghost function Rendered(fmt: string, d: Date): string
    requires ValidDate(d)
  {
    RenderPieces(Pieces(fmt), d)
  }

  // The program's single pass over the format: check and render the runs, copy what lies between them.
  method FormatDailyNoteDate(d: Date, fmt: string) returns (r: Option<string>)
    ensures r.Some? <==> ValidDate(d) && ValidFormat(fmt)
    ensures r.Some? ==> r.value == Rendered(fmt, d)
  {
    hide *;
    if !ValidDate(d) { return None; }
    LengthRefused(fmt);
    if fmt == "" || |fmt| > FORMAT_MAX_LEN { return None; }
    var out, pos, hasToken, valid := "", 0, false, true;
    ghost var todo := Pieces(fmt);
    NoPieces(d, fmt);
    while pos < |fmt|
      invariant 0 <= pos <= |fmt| && todo == Pieces(fmt[pos..])
      invariant Rendered(fmt, d) == out + RenderPieces(todo, d)
      invariant AllValid(Pieces(fmt)) <==> valid && AllValid(todo)
      invariant HasToken(Pieces(fmt)) <==> hasToken || HasToken(todo)
      decreases |fmt| - pos
    {
      var rest := fmt[pos..];
      PiecesHead(rest, d);
      HeadPieceIs(rest, d);
      var n := HeadLength(rest);
      if IsAlpha(rest[0]) {
        valid := valid && IsToken(rest[..n]);
        hasToken := true;
        ConcatAssoc(out, FormatToken(rest[..n], d), RenderPieces(Pieces(rest[n..]), d));
        out := out + FormatToken(rest[..n], d);
      } else {
        valid := valid && IsSafeLiteral(rest[0]);
        ConcatAssoc(out, [rest[0]], RenderPieces(Pieces(rest[n..]), d));
        out := out + [rest[0]];
      }
      DropDrop(fmt, pos, n);
      pos := pos + n;
      todo := Pieces(fmt[pos..]);
    }
    assert fmt[pos..] == "" && out + "" == out;
    ValidFormatIs(fmt);
    r := if valid && hasToken then Some(out) else None;
  }

  lemma LengthRefused(fmt: string)
    ensures fmt == "" || |fmt| > FORMAT_MAX_LEN ==> !ValidFormat(fmt)
  {
    hide AllValid, HasToken, Pieces;
  }

  lemma DropDrop(s: string, a: nat, b: nat)
    requires a + b <= |s|
    ensures s[a..][b..] == s[a + b..]
  {
  }

  lemma ConcatAssoc(a: string, b: string, c: string)
    ensures a + (b + c) == (a + b) + c
  {
  }

  lemma ValidFormatIs(fmt: string)
    requires fmt != "" && |fmt| <= FORMAT_MAX_LEN
    ensures ValidFormat(fmt) <==> AllValid(Pieces(fmt)) && HasToken(Pieces(fmt))
  {
    hide Pieces, AllValid, HasToken;
  }

  lemma NoPieces(d: Date, fmt: string)
    requires ValidDate(d)
    ensures fmt[0..] == fmt && Rendered(fmt, d) == "" + RenderPieces(Pieces(fmt), d)
    ensures RenderPieces(Pieces(""), d) == "" && AllValid(Pieces("")) && !HasToken(Pieces(""))
  {
    hide ValidPiece;
  }

  function HeadLength(rest: string): (n: nat)
    requires rest != ""
    ensures 0 < n <= |rest|
  {
    if IsAlpha(rest[0]) then AlphaRun(rest) else 1
  }

  function HeadPiece(rest: string): Piece
    requires rest != ""
  {
    if IsAlpha(rest[0]) then Run(rest[..HeadLength(rest)]) else Literal(rest[0])
  }

  lemma PiecesStep(rest: string)
    requires rest != ""
    ensures Pieces(rest) == [HeadPiece(rest)] + Pieces(rest[HeadLength(rest)..])
  {
    hide IsAlpha, AlphaRun;
  }

  // The first piece of what is left, and what it contributes.
  lemma PiecesHead(rest: string, d: Date)
    requires rest != "" && ValidDate(d)
    ensures RenderPieces(Pieces(rest), d) == PieceText(HeadPiece(rest), d) + RenderPieces(Pieces(rest[HeadLength(rest)..]), d)
    ensures AllValid(Pieces(rest)) <==> ValidPiece(HeadPiece(rest)) && AllValid(Pieces(rest[HeadLength(rest)..]))
    ensures HasToken(Pieces(rest)) <==> HeadPiece(rest).Run? || HasToken(Pieces(rest[HeadLength(rest)..]))
  {
    hide Pieces, PieceText, ValidPiece, HeadPiece, HeadLength, ValidDate;
    PiecesStep(rest);
    var p, ps := HeadPiece(rest), Pieces(rest[HeadLength(rest)..]);
    assert ([p] + ps)[1..] == ps;
    assert forall q :: q in [p] + ps <==> q == p || q in ps;
  }

  lemma HeadPieceIs(rest: string, d: Date)
    requires rest != "" && ValidDate(d)
    ensures PieceText(HeadPiece(rest), d) == if IsAlpha(rest[0]) then FormatToken(rest[..HeadLength(rest)], d) else [rest[0]]
    ensures ValidPiece(HeadPiece(rest)) <==>
      if IsAlpha(rest[0]) then IsToken(rest[..HeadLength(rest)]) else IsSafeLiteral(rest[0])
    ensures HeadPiece(rest).Run? <==> IsAlpha(rest[0])
  {
    hide IsAlpha, HeadLength, FormatToken, IsToken, IsSafeLiteral, ValidDate;
  }

  // A name is rendered from the left: a character that is no letter stands for itself, a maximal run of
  // letters is a token.
  lemma RenderedExact(fmt: string, d: Date) returns (n: nat)
    requires ValidDate(d)
    ensures fmt == "" ==> Rendered(fmt, d) == ""
    ensures fmt != "" && !('a' <= fmt[0] <= 'z' || 'A' <= fmt[0] <= 'Z') ==> Rendered(fmt, d) == [fmt[0]] + Rendered(fmt[1..], d)
    ensures fmt != "" && ('a' <= fmt[0] <= 'z' || 'A' <= fmt[0] <= 'Z') ==>
      && 0 < n <= |fmt| && (forall c | c in fmt[..n] :: 'a' <= c <= 'z' || 'A' <= c <= 'Z')
      && (n < |fmt| ==> !('a' <= fmt[n] <= 'z' || 'A' <= fmt[n] <= 'Z'))
      && Rendered(fmt, d) == FormatToken(fmt[..n], d) + Rendered(fmt[n..], d)
  {
    n := 0;
    assert forall c :: IsAlpha(c) <==> 'a' <= c <= 'z' || 'A' <= c <= 'Z';
    NoPieces(d, fmt);
    if fmt != "" {
      AlphaRunIsAlpha(fmt);
      hide Pieces, RenderPieces, FormatToken, IsAlpha, AlphaRun;
      PiecesHead(fmt, d);
      HeadPieceIs(fmt, d);
      n := HeadLength(fmt);
    }
  }

  lemma {:induction false} AlphaRunIsAlpha(s: string)
    ensures forall c | c in s[..AlphaRun(s)] :: IsAlpha(c)
  {
    if s != "" && IsAlpha(s[0]) {
      AlphaRunIsAlpha(s[1..]);
      assert s[..AlphaRun(s)] == [s[0]] + s[1..][..AlphaRun(s[1..])];
    }
  }

  // ----- exactness -----

  // Two digit strings, each followed by a non-digit or by nothing, agree when the wholes agree.
  lemma {:induction false} DigitPrefix(a: string, r: string, b: string, s: string)
    requires AllDigits(a) && AllDigits(b)
    requires (r == "" || !IsDigit(r[0])) && (s == "" || !IsDigit(s[0]))
    requires a + r == b + s
    ensures a == b && r == s
  {
    hide IsDigit;
    if a != "" && b != "" {
      assert a[0] == (a + r)[0] == b[0];
      assert (a + r)[1..] == a[1..] + r && (b + s)[1..] == b[1..] + s;
      assert AllDigits(a[1..]) && AllDigits(b[1..]) by {
        assert forall c | c in a[1..] :: c in a;
        assert forall c | c in b[1..] :: c in b;
      }
      DigitPrefix(a[1..], r, b[1..], s);
      assert a == [a[0]] + a[1..] && b == [b[0]] + b[1..];
    } else {
      assert a == "" ==> a + r == r;
      assert b == "" ==> b + s == s;
    }
  }

  ghost predicate AgreeOnTokens(ps: seq<Piece>, d: Date, e: Date) {
    forall p | p in ps && p.Run? :: TokenValue(p.letters, d) == TokenValue(p.letters, e)
  }

  // Maximal runs: a run is never directly followed by another run.
  ghost predicate RunsApart(ps: seq<Piece>) {
    forall i | 0 <= i < |ps| - 1 :: ps[i].Run? ==> ps[i + 1].Literal?
  }

  lemma {:induction false} PiecesApart(fmt: string)
    ensures RunsApart(Pieces(fmt))
    ensures fmt != "" ==> Pieces(fmt) != [] && (Pieces(fmt)[0].Run? <==> IsAlpha(fmt[0]))
    decreases |fmt|
  {
    hide IsAlpha;
    if fmt != "" {
      PiecesApart(fmt[if IsAlpha(fmt[0]) then AlphaRun(fmt) else 1..]);
    }
  }

  lemma {:induction false} RenderStart(ps: seq<Piece>, d: Date)
    requires ValidDate(d) && (ps == [] || (ps[0].Literal? && ValidPiece(ps[0])))
    ensures RenderPieces(ps, d) == "" || !IsDigit(RenderPieces(ps, d)[0])
  {
  }

  lemma {:induction false} RenderExact(ps: seq<Piece>, d: Date, e: Date)
    requires ValidDate(d) && ValidDate(e)
    requires RunsApart(ps) && AllValid(ps)
    ensures RenderPieces(ps, d) == RenderPieces(ps, e) <==> AgreeOnTokens(ps, d, e)
  {
    if ps != [] {
      hide FormatToken, TokenValue, IsDigit, IsSafeLiteral;
      var p, rest := ps[0], ps[1..];
      assert forall q :: q in ps <==> q == p || q in rest;
      assert RunsApart(rest) by {
        forall i | 0 <= i < |rest| - 1 && rest[i].Run? ensures rest[i + 1].Literal? {
          assert ps[i + 1].Run? ==> ps[i + 2].Literal?;
        }
      }
      RenderExact(rest, d, e);
      HeadExact(p, rest, d, e);
    }
  }

  lemma HeadExact(p: Piece, rest: seq<Piece>, d: Date, e: Date)
    requires ValidDate(d) && ValidDate(e) && forall q | q in rest :: ValidPiece(q)
    requires p.Run? ==> rest == [] || rest[0].Literal?
    ensures PieceText(p, d) + RenderPieces(rest, d) == PieceText(p, e) + RenderPieces(rest, e)
      <==> (p.Run? ==> TokenValue(p.letters, d) == TokenValue(p.letters, e)) && RenderPieces(rest, d) == RenderPieces(rest, e)
  {
    var r, s := RenderPieces(rest, d), RenderPieces(rest, e);
    if p.Run? {
      if rest != [] { assert rest[0] in rest; }
      RenderStart(rest, d);
      RenderStart(rest, e);
      FormatTokenExact(p.letters, d, e);
      FormatTokenExact(p.letters, e, d);
      hide FormatToken, RenderPieces, TokenValue, IsDigit;
      if FormatToken(p.letters, d) + r == FormatToken(p.letters, e) + s {
        DigitPrefix(FormatToken(p.letters, d), r, FormatToken(p.letters, e), s);
      }
    } else {
      hide RenderPieces;
      assert ([p.c] + r)[1..] == r && ([p.c] + s)[1..] == s;
    }
  }

  // Under a valid format, two dates get the same file name exactly when they agree on every token.
  lemma FormatExact(fmt: string, d: Date, e: Date)
    requires ValidFormat(fmt) && ValidDate(d) && ValidDate(e)
    ensures Rendered(fmt, d) == Rendered(fmt, e) <==> AgreeOnTokens(Pieces(fmt), d, e)
  {
    PiecesApart(fmt);
    RenderExact(Pieces(fmt), d, e);
  }

  ghost predicate Shows(fmt: string, tokens: set<string>) {
    exists p | p in Pieces(fmt) :: p.Run? && p.letters in tokens
  }

  // A format with a full year, a month and a day token names every date differently; and one that
  // lacks any of the three gives two dates the same name.
  lemma FormatInjective(fmt: string)
    requires ValidFormat(fmt)
    ensures Shows(fmt, {"YYYY"}) && Shows(fmt, {"MM", "M"}) && Shows(fmt, {"DD", "D"}) <==>
      forall d, e | ValidDate(d) && ValidDate(e) && Rendered(fmt, d) == Rendered(fmt, e) :: d == e
  {
    hide Pieces, Rendered, IsToken;
    if Shows(fmt, {"YYYY"}) && Shows(fmt, {"MM", "M"}) && Shows(fmt, {"DD", "D"}) {
      forall d, e | ValidDate(d) && ValidDate(e) && Rendered(fmt, d) == Rendered(fmt, e) ensures d == e {
        FormatExact(fmt, d, e);
      }
    } else {
      var d := Date(2001, 1, 1);
      var e := if !Shows(fmt, {"YYYY"}) then Date(2101, 1, 1)
               else if !Shows(fmt, {"MM", "M"}) then Date(2001, 2, 1) else Date(2001, 1, 2);
      TokensKnown(fmt);
      FormatExact(fmt, d, e);
      forall p | p in Pieces(fmt) && p.Run? ensures TokenValue(p.letters, d) == TokenValue(p.letters, e) {
        assert IsToken(p.letters);
        TokenIs(p.letters);
      }
      assert d != e;
    }
  }

  lemma TokenIs(letters: string)
    requires IsToken(letters)
    ensures letters in {"YYYY"} || letters == "YY" || letters in {"MM", "M"} || letters in {"DD", "D"}
  {
  }

  lemma TokensKnown(fmt: string)
    requires ValidFormat(fmt)
    ensures forall p | p in Pieces(fmt) && p.Run? :: IsToken(p.letters)
  {
    hide Pieces;
  }

  // ----- the note path -----

  datatype DailyNotesConfig = DailyNotesConfig(folder: string, format: string)

  function PathParts(path: string): (parts: seq<string>)
    ensures |parts| >= 1
  {
    if path == "" then [""]
    else
      var rest := PathParts(path[1..]);
      if path[0] == '/' then [""] + rest else [[path[0]] + rest[0]] + rest[1..]
  }

  predicate ValidRelativePath(path: string) {
    && path != "" && path[0] != '/' && '\\' !in path
    && (forall c | c in path :: !(c as int < 0x20 || c as int == 0x7f))
    && (forall part | part in PathParts(path) :: part != "" && part != "." && part != "..")
  }

  ghost function NotePath(cfg: DailyNotesConfig, d: Date): string
    requires ValidDate(d)
  {
    (if cfg.folder == "" then "" else cfg.folder + "/") + Rendered(cfg.format, d) + ".md"
  }

  // The resolved note, or nothing when the date, the format or the resulting path is refused.
  ghost function Resolve(cfg: DailyNotesConfig, d: Date): Option<string> {
    if ValidDate(d) && ValidFormat(cfg.format) && ValidRelativePath(NotePath(cfg, d)) then Some(NotePath(cfg, d)) else None
  }

  method ResolveDailyNotePath(cfg: DailyNotesConfig, d: Date) returns (r: Option<string>)
    ensures r == Resolve(cfg, d)
  {
    if !ValidDate(d) { return None; }
    var formatted := FormatDailyNoteDate(d, cfg.format);
    if formatted.None? { return None; }
    var filename := formatted.value + ".md";
    var relative := if cfg.folder == "" then filename else cfg.folder + "/" + filename;
    assert relative == NotePath(cfg, d);
    if !ValidRelativePath(relative) { return None; }
    return Some(relative);
  }

  // Cutting a path at its slashes.
  function Joined(parts: seq<string>): string
    requires |parts| >= 1
  {
    if |parts| == 1 then parts[0] else parts[0] + "/" + Joined(parts[1..])
  }

  lemma {:induction false} PathPartsExact(path: string)
    ensures Joined(PathParts(path)) == path
    ensures forall part | part in PathParts(path) :: '/' !in part
  {
    if path != "" {
      PathPartsExact(path[1..]);
      var rest := PathParts(path[1..]);
      assert path == [path[0]] + path[1..];
      assert forall part | part in rest[1..] :: part in rest;
      assert rest[0] in rest;
      if path[0] == '/' {
        assert ([""] + rest)[1..] == rest;
      } else {
        assert ([[path[0]] + rest[0]] + rest[1..])[1..] == rest[1..];
        if |rest| > 1 { assert [path[0]] + (rest[0] + "/" + Joined(rest[1..])) == ([path[0]] + rest[0]) + "/" + Joined(rest[1..]); }
      }
    }
  }

  // Any part between two slashes is one of the parts.
  lemma {:induction false} PartAt(before: string, part: string, after: string)
    requires '/' !in part
    ensures part in PathParts(before + "/" + part + "/" + after)
    ensures part in PathParts(part + "/" + after)
  {
    FirstPart(part, after);
    if before == "" {
      assert before + "/" + part + "/" + after == "/" + (part + "/" + after);
      assert ("/" + (part + "/" + after))[1..] == part + "/" + after;
    } else {
      PartAt(before[1..], part, after);
      var path, rest := before + "/" + part + "/" + after, PathParts(before[1..] + "/" + part + "/" + after);
      assert path[1..] == before[1..] + "/" + part + "/" + after;
      assert PathParts(path) == if path[0] == '/' then [""] + rest else [[path[0]] + rest[0]] + rest[1..];
      LaterPart(before[1..], part, after);
    }
  }

  lemma {:induction false} FirstPart(part: string, after: string)
    requires '/' !in part
    ensures PathParts(part + "/" + after) == [part] + PathParts(after)
  {
    var path := part + "/" + after;
    if part == "" {
      assert path == "/" + after && path[1..] == after;
    } else {
      FirstPart(part[1..], after);
      assert path[1..] == part[1..] + "/" + after;
      assert part[0] in part && part == [part[0]] + part[1..];
      assert ([part[1..]] + PathParts(after))[1..] == PathParts(after);
    }
  }

  // A part after a slash is never the first one.
  lemma {:induction false} LaterPart(before: string, part: string, after: string)
    requires '/' !in part
    ensures part in PathParts(before + "/" + part + "/" + after)[1..]
  {
    FirstPart(part, after);
    if before == "" {
      assert before + "/" + part + "/" + after == "/" + (part + "/" + after);
      assert ("/" + (part + "/" + after))[1..] == part + "/" + after;
    } else {
      LaterPart(before[1..], part, after);
      var path, rest := before + "/" + part + "/" + after, PathParts(before[1..] + "/" + part + "/" + after);
      assert path[1..] == before[1..] + "/" + part + "/" + after;
      assert PathParts(path)[1..] == if path[0] == '/' then rest else rest[1..];
    }
  }

  // A valid path has no way up, no step that stays and no empty one.
  lemma NoSteps(path: string, before: string, after: string)
    requires ValidRelativePath(path)
    ensures path != before + "/" + ".." + "/" + after && path != before + "/" + "." + "/" + after && path != before + "/" + "" + "/" + after
    ensures path != ".." + "/" + after && path != "." + "/" + after
  {
    hide PathParts;
    PartAt(before, "..", after);
    PartAt(before, ".", after);
    PartAt(before, "", after);
  }

  // A resolved note is a Markdown file of the folder, inside the vault.
  lemma ResolvedInside(cfg: DailyNotesConfig, d: Date, before: string, after: string)
    requires Resolve(cfg, d).Some?
    ensures var path := Resolve(cfg, d).value;
      && path == (if cfg.folder == "" then "" else cfg.folder + "/") + Rendered(cfg.format, d) + ".md"
      && path != "" && path[0] != '/' && '\\' !in path && (forall c | c in path :: 0x20 <= c as int && c as int != 0x7f)
      && path != before + "/" + ".." + "/" + after && path != before + "/" + "." + "/" + after && path != before + "/" + "" + "/" + after
      && path != ".." + "/" + after && path != "." + "/" + after
  {
    hide Rendered, PathParts;
    NoSteps(Resolve(cfg, d).value, before, after);
  }

  // Under one configuration, dates share a note exactly when they agree on every token of its format.
  lemma SameNote(cfg: DailyNotesConfig, d: Date, e: Date)
    requires Resolve(cfg, d).Some? && Resolve(cfg, e).Some?
    ensures Resolve(cfg, d) == Resolve(cfg, e) <==> AgreeOnTokens(Pieces(cfg.format), d, e)
  {
    FormatExact(cfg.format, d, e);
    hide Pieces, Rendered;
    var prefix := if cfg.folder == "" then "" else cfg.folder + "/";
    var (x, y) := (Rendered(cfg.format, d), Rendered(cfg.format, e));
    if prefix + x + ".md" == prefix + y + ".md" {
      assert |x| == |y|;
      assert x == (prefix + x + ".md")[|prefix|..|prefix| + |x|];
      assert y == (prefix + y + ".md")[|prefix|..|prefix| + |x|];
    }
  }
}
