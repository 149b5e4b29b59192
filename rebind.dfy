/** postgresRebind.Rebind (db/db.go): rewrites every `?` placeholder outside
    string literals, quoted identifiers and `--` comments to `$1`, `$2`, ...
    in order. The scanner's state before each position is given by StateAt;
    the rewritten text is the concatenation of one Piece per input position. */
module Rebind {
  import opened Strconv

  datatype ParseState = Start | InStringLiteral | InQuotedIdentifier | InComment

  /** The state after reading sql[i] in state st. */
  function Next(sql: string, i: nat, st: ParseState): ParseState
    requires i < |sql|
  {
    var ch := sql[i];
    match st
    case Start =>
      if ch == '-' && i + 1 < |sql| && sql[i + 1] == '-' then InComment
      else if ch == '"' then InQuotedIdentifier
      else if ch == '\'' then InStringLiteral
      else Start
    case InStringLiteral => if ch == '\'' then Start else InStringLiteral
    case InQuotedIdentifier => if ch == '"' then Start else InQuotedIdentifier
    case InComment => if ch == '\n' then Start else InComment
  }

  /** The scanner's state just before it reads sql[i]. */
  function StateAt(sql: string, i: nat): ParseState
    requires i <= |sql|
  {
    if i == 0 then Start else Next(sql, i - 1, StateAt(sql, i - 1))
  }

  /** sql[i] is a `?` at the top level, i.e. a placeholder. */
  predicate IsPlaceholder(sql: string, i: nat)
    requires i < |sql|
  {
    sql[i] == '?' && StateAt(sql, i) == Start
  }

  /** The number of placeholders before position n. */
  function PlaceholdersBefore(sql: string, n: nat): nat
    requires n <= |sql|
  {
    if n == 0 then 0
    else PlaceholdersBefore(sql, n - 1) + (if IsPlaceholder(sql, n - 1) then 1 else 0)
  }

  /** What the output holds for input position i. */
  function Piece(sql: string, i: nat): string
    requires i < |sql|
  {
    if IsPlaceholder(sql, i) then "$" + Itoa(PlaceholdersBefore(sql, i) + 1) else [sql[i]]
  }

  /** The output for the first n input characters. */
  function Rewritten(sql: string, n: nat): string
    requires n <= |sql|
  {
    if n == 0 then "" else Rewritten(sql, n - 1) + Piece(sql, n - 1)
  }

  /** The character loop of Rebind. The Go code walks the bytes of the query;
      every character it tests for is ASCII, and no byte of a multi-byte UTF-8
      sequence is ASCII, so walking characters instead gives the same text. */
  method Rebind(sql: string) returns (out: string)
    ensures out == Rewritten(sql, |sql|)
  {
    out := [];
    var j := 1;
    var state := Start;
    var i := 0;
    while i < |sql|
      invariant 0 <= i <= |sql|
      invariant state == StateAt(sql, i)
      invariant j == PlaceholdersBefore(sql, i) + 1
      invariant out == Rewritten(sql, i)
    {
      var ch := sql[i];
      match state {
        case Start =>
          if ch == '?' {
            out := out + "$" + Itoa(j);
            state := Start;
            j := j + 1;
            i := i + 1;
            continue;
          } else if ch == '-' {
            if i + 1 < |sql| && sql[i + 1] == '-' {
              state := InComment;
            }
          } else if ch == '"' {
            state := InQuotedIdentifier;
          } else if ch == '\'' {
            state := InStringLiteral;
          }
        case InStringLiteral =>
          if ch == '\'' {
            state := Start;
          }
        case InQuotedIdentifier =>
          if ch == '"' {
            state := Start;
          }
        case InComment =>
          if ch == '\n' {
            state := Start;
          }
      }
      out := out + [ch];
      i := i + 1;
    }
  }

  /** Without placeholders the first n characters come out unchanged. */
  lemma {:induction false} RewrittenPrefix(sql: string, n: nat)
    requires n <= |sql|
    requires forall i | 0 <= i < n :: !IsPlaceholder(sql, i)
    ensures Rewritten(sql, n) == sql[..n]
  {
    if n > 0 {
      RewrittenPrefix(sql, n - 1);
      assert sql[..n] == sql[..n - 1] + [sql[n - 1]];
    }
  }

  /** A query with no top-level `?` is returned as it is. */
  lemma NoPlaceholderIdentity(sql: string)
    requires forall i | 0 <= i < |sql| :: !IsPlaceholder(sql, i)
    ensures Rewritten(sql, |sql|) == sql
  {
    RewrittenPrefix(sql, |sql|);
  }

  /** In particular a query with no `?` at all is returned as it is. */
  lemma NoQuestionMarkIdentity(sql: string)
    requires forall i | 0 <= i < |sql| :: sql[i] != '?'
    ensures Rewritten(sql, |sql|) == sql
  {
    NoPlaceholderIdentity(sql);
  }

  /** The character that ends a quoted region or a comment. */
  function Closer(st: ParseState): char
    requires st != Start
  {
    match st
    case InStringLiteral => '\''
    case InQuotedIdentifier => '"'
    case InComment => '\n'
  }

  /** Once inside a literal, an identifier or a comment, the scanner stays
      there until it reads that region's closing character. */
  lemma {:induction false} RegionPersists(sql: string, i: nat, k: nat, st: ParseState)
    requires st != Start && i <= k <= |sql|
    requires StateAt(sql, i) == st
    requires forall p | i <= p < k :: sql[p] != Closer(st)
    ensures StateAt(sql, k) == st
  {
    if k > i {
      RegionPersists(sql, i, k - 1, st);
    }
  }

  /** A `?` between an opening `'` read at the top level and the next `'` is
      copied, not numbered. */
  lemma MarkInStringLiteralKept(sql: string, open: nat, p: nat)
    requires open < p < |sql|
    requires StateAt(sql, open) == Start && sql[open] == '\''
    requires forall q | open < q < p :: sql[q] != '\''
    ensures Piece(sql, p) == [sql[p]]
  {
    RegionPersists(sql, open + 1, p, InStringLiteral);
  }

  /** The same inside a "quoted identifier". */
  lemma MarkInQuotedIdentifierKept(sql: string, open: nat, p: nat)
    requires open < p < |sql|
    requires StateAt(sql, open) == Start && sql[open] == '"'
    requires forall q | open < q < p :: sql[q] != '"'
    ensures Piece(sql, p) == [sql[p]]
  {
    RegionPersists(sql, open + 1, p, InQuotedIdentifier);
  }

  /** The same after a top-level `--`, up to the next newline. */
  lemma MarkInCommentKept(sql: string, open: nat, p: nat)
    requires open + 1 < p < |sql|
    requires StateAt(sql, open) == Start && sql[open] == '-' && sql[open + 1] == '-'
    requires forall q | open < q < p :: sql[q] != '\n'
    ensures Piece(sql, p) == [sql[p]]
  {
    RegionPersists(sql, open + 1, p, InComment);
  }

  /** Placeholders are numbered in increasing order. */
  lemma {:induction false} NumberingIncreases(sql: string, i: nat, k: nat)
    requires i < k < |sql| && IsPlaceholder(sql, i)
    ensures PlaceholdersBefore(sql, i) < PlaceholdersBefore(sql, k)
  {
    if k > i + 1 {
      NumberingIncreases(sql, i, k - 1);
    }
  }

  /** Every number from 1 to the total count is given to some placeholder. */
  lemma {:induction false} NumberingComplete(sql: string, n: nat, m: nat)
    requires n <= |sql| && 1 <= m <= PlaceholdersBefore(sql, n)
    ensures exists i :: 0 <= i < n && IsPlaceholder(sql, i) && PlaceholdersBefore(sql, i) + 1 == m
  {
    if m <= PlaceholdersBefore(sql, n - 1) {
      NumberingComplete(sql, n - 1, m);
    } else {
      assert IsPlaceholder(sql, n - 1) && PlaceholdersBefore(sql, n - 1) + 1 == m;
    }
  }
}
