/** The database initialiser's script splitter: the SQL file is cut at
    every `;`, each piece is trimmed, and empty pieces are dropped. */
module InitDatabase {
  import opened Common

  /** `.map(stmt => stmt.trim())`. */
  function TrimAll(parts: seq<string>): (r: seq<string>)
    ensures |r| == |parts|
    ensures forall i :: 0 <= i < |r| ==> r[i] == Trim(parts[i])
  {
    seq(|parts|, i requires 0 <= i < |parts| => Trim(parts[i]))
  }

  predicate NonEmpty(stmt: string) {
    |stmt| > 0
  }

  /** The statements run, in order: `sql.split(';').map(trim).filter(nonEmpty)`. */
  function Statements(sql: string): (r: seq<string>)
    ensures |r| <= |Split(sql, ';')|
    ensures forall i :: 0 <= i < |r| ==> r[i] != ""
  {
    var pieces := TrimAll(Split(sql, ';'));
    KeptAreNonEmpty(pieces);
    Filter(pieces, NonEmpty)
  }

  lemma KeptAreNonEmpty(pieces: seq<string>)
    ensures forall i :: 0 <= i < |Filter(pieces, NonEmpty)| ==> Filter(pieces, NonEmpty)[i] != ""
  {
    var r := Filter(pieces, NonEmpty);
    forall i | 0 <= i < |r| ensures r[i] != "" {
      assert r[i] in r;
    }
  }

  /** Every statement is non-empty, has no `;`, and starts and ends with a
      non-blank character. */
  lemma StatementsAreClean(sql: string, i: nat)
    requires i < |Statements(sql)|
    ensures var stmt := Statements(sql)[i];
      && stmt != ""
      && ';' !in stmt
      && !IsWhitespace(stmt[0]) && !IsWhitespace(stmt[|stmt| - 1])
  {
    var parts := Split(sql, ';');
    var trimmed := TrimAll(parts);
    var stmt := Statements(sql)[i];
    assert stmt in Filter(trimmed, NonEmpty);
    var k := PieceOf(trimmed, stmt);
    TrimmedPieceIsClean(parts[k]);
  }

  /** The position of a kept piece among the trimmed pieces. */
  lemma PieceOf(trimmed: seq<string>, stmt: string) returns (k: nat)
    requires stmt in Filter(trimmed, NonEmpty)
    ensures k < |trimmed| && trimmed[k] == stmt && stmt != ""
  {
    assert stmt in trimmed && NonEmpty(stmt);
    var j :| 0 <= j < |trimmed| && trimmed[j] == stmt;
    k := j;
  }

  /** A non-blank piece of the file trims to a clean statement. */
  lemma TrimmedPieceIsClean(piece: string)
    requires ';' !in piece && Trim(piece) != ""
    ensures ';' !in Trim(piece)
    ensures !IsWhitespace(Trim(piece)[0]) && !IsWhitespace(Trim(piece)[|Trim(piece)| - 1])
  {
  }

  /** Statements keep the order of the file: the text before the first `;`
      gives the first statement, unless it is blank. */
  lemma {:induction false} StatementsInOrder(first: string, rest: string)
    requires ';' !in first
    ensures Statements(first + ";" + rest) ==
      (if IsBlank(first) then [] else [Trim(first)]) + Statements(rest)
  {
    var whole := first + ";" + rest;
    assert whole == first + [';'] + rest;
    SplitAtFirst(first, ';', rest);
    var parts := Split(rest, ';');
    TrimAllCons(first, parts);
    FilterAppend([Trim(first)], TrimAll(parts), NonEmpty);
    KeptIffNotBlank(first);
  }

  /** Trimming a list trims its head and then its tail. */
  lemma TrimAllCons(first: string, parts: seq<string>)
    ensures TrimAll([first] + parts) == [Trim(first)] + TrimAll(parts)
  {
    var left, right := TrimAll([first] + parts), [Trim(first)] + TrimAll(parts);
    forall i | 0 <= i < |left| ensures left[i] == right[i] {
      if i > 0 {
        assert ([first] + parts)[i] == parts[i - 1];
      }
    }
  }

  /** One trimmed piece is kept exactly when it is not blank. */
  lemma KeptIffNotBlank(piece: string)
    ensures Filter([Trim(piece)], NonEmpty) == if IsBlank(piece) then [] else [Trim(piece)]
  {
    var t := Trim(piece);
    assert [t][1..] == [];
    assert Filter([t], NonEmpty) == (if NonEmpty(t) then [t] else []) + Filter([], NonEmpty);
  }

  /** A file without `;` is one statement, or none when blank. */
  lemma SingleStatement(sql: string)
    requires ';' !in sql
    ensures Statements(sql) == if IsBlank(sql) then [] else [Trim(sql)]
  {
    SplitWithoutSeparator(sql, ';');
    TrimAllCons(sql, []);
    assert [sql] + [] == [sql];
    assert [Trim(sql)] + TrimAll([]) == [Trim(sql)];
    assert Statements(sql) == Filter(TrimAll([sql]), NonEmpty);
    KeptIffNotBlank(sql);
  }

  /** The splitter does not know SQL: a `;` inside a quoted literal still
      cuts the statement in two. */
  lemma QuotedSemicolonSplits(head: string, tail: string)
    requires head == "SELECT 'a" && tail == "b'"
    ensures Statements(head + ";" + tail) == [head, tail]
  {
    CleanPiece(head);
    CleanPiece(tail);
    StatementsInOrder(head, tail);
    SingleStatement(tail);
  }

  /** A piece of the example that is already a clean statement. */
  lemma CleanPiece(s: string)
    requires s == "SELECT 'a" || s == "b'"
    ensures ';' !in s && Trim(s) == s && !IsBlank(s)
  {
    assert !IsWhitespace(s[0]) && !IsWhitespace(s[|s| - 1]);
    TrimOfClean(s);
  }

  /** Text that neither starts nor ends with white space is its own trim. */
  lemma TrimOfClean(s: string)
    requires s != [] && !IsWhitespace(s[0]) && !IsWhitespace(s[|s| - 1])
    ensures Trim(s) == s && !IsBlank(s)
  {
  }
}
