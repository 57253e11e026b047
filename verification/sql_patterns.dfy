/** The two regular expressions the read/write router applies to raw SQL text,
    hand-coded as scanners over ASCII:
      - `/\b<prefix>([a-z][A-Za-z0-9_]*)/` (all matches), giving the table names;
      - `/lock_db\b/`, marking lock queries that must stay on the primary. */
module SqlPatterns {
  import opened Ascii

  /** A table prefix. It is interpolated into the pattern unescaped, so only
      word characters keep its meaning literal. */
  type Prefix = p: string | IsWordString(p) witness ""

  /** A table name as the pattern captures it: a lowercase letter followed by
      word characters. */
  predicate IsIdentifier(x: string) {
    |x| > 0 && IsLower(x[0]) && IsWordString(x)
  }

  /** The end of the longest run of word characters starting at `j`. */
  function WordRunEnd(sql: string, j: nat): (e: nat)
    requires j <= |sql|
    ensures j <= e <= |sql|
    ensures forall k :: j <= k < e ==> IsWordChar(sql[k])
    ensures e == |sql| || !IsWordChar(sql[e])
    decreases |sql| - j
  {
    if j < |sql| && IsWordChar(sql[j]) then WordRunEnd(sql, j + 1) else j
  }

  /** `\b<prefix>[a-z]` matches at position `i`. The character at `i` is a word
      character (the prefix's first, or the letter), so `\b` holds exactly when
      `i` starts the text or follows a non-word character. */
  predicate MatchAt(sql: string, prefix: Prefix, i: nat) {
    && i + |prefix| < |sql|
    && (i == 0 || !IsWordChar(sql[i - 1]))
    && sql[i..i + |prefix|] == prefix
    && IsLower(sql[i + |prefix|])
  }

  /** The name captured by a match at `i`: greedy `[a-z][A-Za-z0-9_]*`. */
  function CapturedAt(sql: string, prefix: Prefix, i: nat): string
    requires MatchAt(sql, prefix, i)
  {
    sql[i + |prefix|..WordRunEnd(sql, i + |prefix|)]
  }

  /** The captures of every match position from `i` on, left to right. */
  function MatchesFrom(sql: string, prefix: Prefix, i: nat): seq<string>
    decreases |sql| - i
  {
    if i >= |sql| then []
    else (if MatchAt(sql, prefix, i) then [CapturedAt(sql, prefix, i)] else [])
         + MatchesFrom(sql, prefix, i + 1)
  }

  /** Reference meaning of `table_names`: one entry per position where the
      pattern matches, in text order, duplicates kept. */
  function TableNames(prefix: Prefix, sql: string): (r: seq<string>)
    ensures |r| <= |sql|
  {
    MatchesFromBound(sql, prefix, 0);
    MatchesFrom(sql, prefix, 0)
  }

  /** At most one match starts at each position. */
  lemma {:induction false} MatchesFromBound(sql: string, prefix: Prefix, i: nat)
    requires i <= |sql|
    ensures |MatchesFrom(sql, prefix, i)| <= |sql| - i
    decreases |sql| - i
  {
    if i < |sql| {
      MatchesFromBound(sql, prefix, i + 1);
    }
  }

  /** Every extracted entry is an identifier. */
  lemma {:induction false} MatchesAreIdentifiers(sql: string, prefix: Prefix, i: nat)
    ensures forall k :: 0 <= k < |MatchesFrom(sql, prefix, i)| ==>
      IsIdentifier(MatchesFrom(sql, prefix, i)[k])
    decreases |sql| - i
  {
    if i < |sql| {
      MatchesAreIdentifiers(sql, prefix, i + 1);
      if MatchAt(sql, prefix, i) {
        var c := CapturedAt(sql, prefix, i);
        assert c[0] == sql[i + |prefix|];
        assert IsIdentifier(c);
      }
    }
  }

  /** No match can start strictly inside a preceding run of word characters,
      so the positions from `j` to `e` contribute nothing. */
  lemma {:induction false} NoMatchInsideRun(sql: string, prefix: Prefix, j: nat, e: nat)
    requires 0 < j <= e <= |sql|
    requires forall k :: j - 1 <= k < e ==> IsWordChar(sql[k])
    ensures MatchesFrom(sql, prefix, j) == MatchesFrom(sql, prefix, e)
    decreases e - j
  {
    if j < e {
      assert !MatchAt(sql, prefix, j);
      NoMatchInsideRun(sql, prefix, j + 1, e);
    }
  }

  /** After a match, scanning resumes where its capture ends without losing any match. */
  lemma ResumeAfterMatch(sql: string, prefix: Prefix, i: nat)
    requires MatchAt(sql, prefix, i)
    ensures MatchesFrom(sql, prefix, i) ==
      [CapturedAt(sql, prefix, i)] + MatchesFrom(sql, prefix, WordRunEnd(sql, i + |prefix|))
  {
    var e := WordRunEnd(sql, i + |prefix|);
    forall k | i <= k < e
      ensures IsWordChar(sql[k])
    {
      if k < i + |prefix| {
        assert sql[k] == sql[i..i + |prefix|][k - i];
      }
    }
    NoMatchInsideRun(sql, prefix, i + 1, e);
  }

  /** `table_names`: `preg_match_all` scans left to right and, after each match,
      resumes at the end of that match. The result is exactly the reference
      sequence of captures, each one an identifier. */
  method ScanTableNames(prefix: Prefix, sql: string) returns (names: seq<string>)
    ensures names == TableNames(prefix, sql)
    ensures forall k :: 0 <= k < |names| ==> IsIdentifier(names[k])
  {
    names := [];
    var i := 0;
    while i < |sql|
      invariant 0 <= i <= |sql|
      invariant names + MatchesFrom(sql, prefix, i) == MatchesFrom(sql, prefix, 0)
    {
      if MatchAt(sql, prefix, i) {
        var e := WordRunEnd(sql, i + |prefix|);
        var name := sql[i + |prefix|..e];
        ResumeAfterMatch(sql, prefix, i);
        assert MatchesFrom(sql, prefix, i) == [name] + MatchesFrom(sql, prefix, e);
        assert (names + [name]) + MatchesFrom(sql, prefix, e) == names + MatchesFrom(sql, prefix, i);
        names := names + [name];
        i := e;
      } else {
        assert MatchesFrom(sql, prefix, i) == MatchesFrom(sql, prefix, i + 1);
        i := i + 1;
      }
    }
    assert names == MatchesFrom(sql, prefix, 0);
    MatchesAreIdentifiers(sql, prefix, 0);
  }

  /** A non-word character sits on one side of the seam between `a` and `b`. */
  predicate SeparatedAt(a: string, b: string) {
    (|a| > 0 && !IsWordChar(a[|a| - 1])) || (|b| > 0 && !IsWordChar(b[0]))
  }

  /** A word run that starts inside `b` is the same run inside `a + b`. */
  lemma {:induction false} WordRunShift(a: string, b: string, k: nat)
    requires k <= |b|
    ensures WordRunEnd(a + b, |a| + k) == |a| + WordRunEnd(b, k)
    decreases |b| - k
  {
    if k < |b| {
      assert (a + b)[|a| + k] == b[k];
      WordRunShift(a, b, k + 1);
    }
  }

  /** A word run that starts inside `a` stops before a non-word seam. */
  lemma {:induction false} WordRunStaysLeft(a: string, b: string, k: nat)
    requires k <= |a| && SeparatedAt(a, b)
    requires k == |a| ==> 0 < k && IsWordChar(a[k - 1])
    ensures WordRunEnd(a + b, k) == WordRunEnd(a, k)
    decreases |a| - k
  {
    if k < |a| {
      assert (a + b)[k] == a[k];
      if IsWordChar(a[k]) {
        WordRunStaysLeft(a, b, k + 1);
      }
    } else {
      assert (a + b)[k] == b[0];
    }
  }

  /** Everything a match covers, its prefix and first letter, is a word character. */
  lemma MatchIsWordChars(sql: string, prefix: Prefix, i: nat)
    ensures MatchAt(sql, prefix, i) ==>
      forall k :: i <= k <= i + |prefix| ==> IsWordChar(sql[k])
  {
    if MatchAt(sql, prefix, i) {
      forall k | i <= k < i + |prefix|
        ensures IsWordChar(sql[k])
      {
        assert sql[k] == sql[i..i + |prefix|][k - i];
      }
    }
  }

  /** Position `j` of `b` matches exactly when position `|a| + j` of `a + b` does,
      with the same capture. */
  lemma SameMatchRight(a: string, b: string, prefix: Prefix, j: nat)
    requires j < |b| && SeparatedAt(a, b)
    ensures MatchAt(a + b, prefix, |a| + j) == MatchAt(b, prefix, j)
    ensures MatchAt(b, prefix, j) ==>
      CapturedAt(a + b, prefix, |a| + j) == CapturedAt(b, prefix, j)
  {
    if j == 0 && !IsWordChar(b[0]) {
      MatchIsWordChars(b, prefix, 0);
      MatchIsWordChars(a + b, prefix, |a|);
      assert (a + b)[|a|] == b[0];
    } else {
      SameMatchRightAway(a, b, prefix, j);
    }
  }

  /** `SameMatchRight` where the character before the position decides the
      boundary alike in `b` and in `a + b`. */
  lemma SameMatchRightAway(a: string, b: string, prefix: Prefix, j: nat)
    requires j < |b| && SeparatedAt(a, b)
    requires j == 0 ==> IsWordChar(b[0])
    ensures MatchAt(a + b, prefix, |a| + j) == MatchAt(b, prefix, j)
    ensures MatchAt(b, prefix, j) ==>
      CapturedAt(a + b, prefix, |a| + j) == CapturedAt(b, prefix, j)
  {
    SameMatchAtRight(a, b, prefix, j);
    if MatchAt(b, prefix, j) {
      SameCapturedRight(a, b, prefix, j);
    }
  }

  /** The match condition alone, away from the seam. */
  lemma SameMatchAtRight(a: string, b: string, prefix: Prefix, j: nat)
    requires j < |b| && SeparatedAt(a, b)
    requires j == 0 ==> IsWordChar(b[0])
    ensures MatchAt(a + b, prefix, |a| + j) == MatchAt(b, prefix, j)
  {
    SameBoundaryRight(a, b, j);
    SamePrefixRight(a, b, prefix, j);
  }

  /** The capture of a match in `b` is the capture at the shifted position. */
  lemma SameCapturedRight(a: string, b: string, prefix: Prefix, j: nat)
    requires MatchAt(b, prefix, j) && MatchAt(a + b, prefix, |a| + j)
    ensures CapturedAt(a + b, prefix, |a| + j) == CapturedAt(b, prefix, j)
  {
    WordRunShift(a, b, j + |prefix|);
    SameCaptureRight(a, b, prefix, j);
  }

  /** The prefix and the letter after it read the same at `j` in `b` and at
      `|a| + j` in `a + b`. */
  lemma SamePrefixRight(a: string, b: string, prefix: Prefix, j: nat)
    requires j < |b|
    ensures (|a| + j + |prefix| < |a + b|) == (j + |prefix| < |b|)
    ensures j + |prefix| < |b| ==>
      && (a + b)[|a| + j..|a| + j + |prefix|] == b[j..j + |prefix|]
      && (a + b)[|a| + j + |prefix|] == b[j + |prefix|]
  {
    if j + |prefix| < |b| {
      SliceRight(a, b, j, j + |prefix|);
    }
  }

  /** A slice of `b` is the shifted slice of `a + b`. */
  lemma SliceRight(a: string, b: string, lo: nat, hi: nat)
    requires lo <= hi <= |b|
    ensures (a + b)[|a| + lo..|a| + hi] == b[lo..hi]
  {
    forall k | 0 <= k < hi - lo
      ensures (a + b)[|a| + lo..|a| + hi][k] == b[lo..hi][k]
    {
      assert (a + b)[|a| + lo + k] == b[lo + k];
    }
  }

  /** The text a capture in `b` covers is the same text inside `a + b`. */
  lemma SameCaptureRight(a: string, b: string, prefix: Prefix, j: nat)
    requires MatchAt(b, prefix, j)
    ensures (a + b)[|a| + j + |prefix|..|a| + WordRunEnd(b, j + |prefix|)]
         == b[j + |prefix|..WordRunEnd(b, j + |prefix|)]
  {
    var start := j + |prefix|;
    SliceRight(a, b, start, WordRunEnd(b, start));
  }

  /** Away from the seam, the character before position `j` of `b` is the same in `a + b`. */
  lemma SameBoundaryRight(a: string, b: string, j: nat)
    requires j < |b| && SeparatedAt(a, b)
    requires j == 0 ==> IsWordChar(b[0])
    ensures (|a| + j == 0 || !IsWordChar((a + b)[|a| + j - 1])) == (j == 0 || !IsWordChar(b[j - 1]))
  {
    if j > 0 {
      assert (a + b)[|a| + j - 1] == b[j - 1];
    } else if |a| > 0 {
      assert (a + b)[|a| - 1] == a[|a| - 1];
    }
  }

  /** Matches at or after the seam are the matches of `b`. */
  lemma {:induction false} MatchesRight(a: string, b: string, prefix: Prefix, j: nat)
    requires j <= |b| && SeparatedAt(a, b)
    ensures MatchesFrom(a + b, prefix, |a| + j) == MatchesFrom(b, prefix, j)
    decreases |b| - j
  {
    if j < |b| {
      MatchesRight(a, b, prefix, j + 1);
      SameMatchRight(a, b, prefix, j);
      var head := if MatchAt(b, prefix, j) then [CapturedAt(b, prefix, j)] else [];
      assert MatchesFrom(a + b, prefix, |a| + j) == head + MatchesFrom(a + b, prefix, |a| + (j + 1));
      assert MatchesFrom(b, prefix, j) == head + MatchesFrom(b, prefix, j + 1);
    }
  }

  /** A match cannot straddle a non-word seam. */
  lemma NoMatchAcrossSeam(a: string, b: string, prefix: Prefix, i: nat)
    requires i < |a| <= i + |prefix| && SeparatedAt(a, b)
    ensures !MatchAt(a + b, prefix, i)
  {
    MatchIsWordChars(a + b, prefix, i);
    assert (a + b)[|a| - 1] == a[|a| - 1];
    assert |b| > 0 ==> (a + b)[|a|] == b[0];
  }

  /** Position `i` of `a` matches exactly when it does in `a + b`, with the same capture. */
  lemma SameMatchLeft(a: string, b: string, prefix: Prefix, i: nat)
    requires i < |a| && SeparatedAt(a, b)
    ensures MatchAt(a + b, prefix, i) == MatchAt(a, prefix, i)
    ensures MatchAt(a, prefix, i) ==>
      CapturedAt(a + b, prefix, i) == CapturedAt(a, prefix, i)
  {
    SameMatchAtLeft(a, b, prefix, i);
    if MatchAt(a, prefix, i) {
      SameCapturedLeft(a, b, prefix, i);
    }
  }

  /** The match condition alone, before the seam. */
  lemma SameMatchAtLeft(a: string, b: string, prefix: Prefix, i: nat)
    requires i < |a| && SeparatedAt(a, b)
    ensures MatchAt(a + b, prefix, i) == MatchAt(a, prefix, i)
  {
    if i + |prefix| < |a| {
      SliceLeft(a, b, i, i + |prefix|);
      assert (a + b)[i + |prefix|] == a[i + |prefix|];
      if i > 0 {
        assert (a + b)[i - 1] == a[i - 1];
      }
    } else {
      NoMatchAcrossSeam(a, b, prefix, i);
    }
  }

  /** The capture of a match in `a` is unchanged by appending `b`. */
  lemma SameCapturedLeft(a: string, b: string, prefix: Prefix, i: nat)
    requires SeparatedAt(a, b) && MatchAt(a, prefix, i) && MatchAt(a + b, prefix, i)
    ensures CapturedAt(a + b, prefix, i) == CapturedAt(a, prefix, i)
  {
    WordRunStaysLeft(a, b, i + |prefix|);
    SliceLeft(a, b, i + |prefix|, WordRunEnd(a, i + |prefix|));
  }

  /** A slice of `a` is the same slice of `a + b`. */
  lemma SliceLeft(a: string, b: string, lo: nat, hi: nat)
    requires lo <= hi <= |a|
    ensures (a + b)[lo..hi] == a[lo..hi]
  {
    forall k | 0 <= k < hi - lo
      ensures (a + b)[lo..hi][k] == a[lo..hi][k]
    {
      assert (a + b)[lo + k] == a[lo + k];
    }
  }

  /** Matches before the seam are the matches of `a`, followed by those of `b`. */
  lemma {:induction false} MatchesLeft(a: string, b: string, prefix: Prefix, i: nat)
    requires i <= |a| && SeparatedAt(a, b)
    ensures MatchesFrom(a + b, prefix, i) == MatchesFrom(a, prefix, i) + MatchesFrom(b, prefix, 0)
    decreases |a| - i
  {
    if i == |a| {
      MatchesRight(a, b, prefix, 0);
    } else {
      MatchesLeft(a, b, prefix, i + 1);
      SameMatchLeft(a, b, prefix, i);
      var head := if MatchAt(a, prefix, i) then [CapturedAt(a, prefix, i)] else [];
      assert MatchesFrom(a + b, prefix, i) == head + MatchesFrom(a + b, prefix, i + 1);
      assert MatchesFrom(a, prefix, i) == head + MatchesFrom(a, prefix, i + 1);
    }
  }

  /** Extraction distributes over concatenation at a non-word seam. */
  lemma TableNamesConcat(prefix: Prefix, a: string, b: string)
    requires SeparatedAt(a, b)
    ensures TableNames(prefix, a + b) == TableNames(prefix, a) + TableNames(prefix, b)
  {
    MatchesLeft(a, b, prefix, 0);
  }

  /** Text that lacks a character of the prefix names no table. */
  lemma {:induction false} NoTablesWithout(prefix: Prefix, sql: string, c: char, i: nat)
    requires c in prefix && c !in sql
    ensures MatchesFrom(sql, prefix, i) == []
    decreases |sql| - i
  {
    if i < |sql| {
      NoTablesWithout(prefix, sql, c, i + 1);
      MatchContainsPrefix(sql, prefix, i);
    }
  }

  /** The text at a match position spells out the prefix. */
  lemma MatchContainsPrefix(sql: string, prefix: Prefix, i: nat)
    ensures MatchAt(sql, prefix, i) ==>
      forall k :: 0 <= k < |prefix| ==> sql[i + k] == prefix[k]
  {
    if MatchAt(sql, prefix, i) {
      forall k | 0 <= k < |prefix|
        ensures sql[i + k] == prefix[k]
      {
        assert sql[i + k] == sql[i..i + |prefix|][k];
      }
    }
  }

  /** A prefixed identifier standing alone names exactly that table. */
  lemma TableNamesOfQualifiedName(prefix: Prefix, name: string)
    requires IsIdentifier(name)
    ensures TableNames(prefix, prefix + name) == [name]
  {
    var sql := prefix + name;
    assert sql[0..|prefix|] == prefix;
    assert sql[|prefix|] == name[0];
    assert MatchAt(sql, prefix, 0);
    forall k | |prefix| <= k < |sql|
      ensures IsWordChar(sql[k])
    {
      assert sql[k] == name[k - |prefix|];
    }
    WordRunToEnd(sql, |prefix|);
    ResumeAfterMatch(sql, prefix, 0);
    assert CapturedAt(sql, prefix, 0) == name;
  }

  /** A query assembled from separator texts with a prefixed table name
      between each neighbouring pair: `gaps[0] prefix names[0] gaps[1] ...`. */
  function Interleave(prefix: string, gaps: seq<string>, names: seq<string>): string
    requires |gaps| == |names| + 1
    decreases |names|
  {
    if |names| == 0 then gaps[0]
    else gaps[0] + (prefix + names[0] + Interleave(prefix, gaps[1..], names[1..]))
  }

  /** Extraction from such a query yields exactly the names, in order and with
      repeats, provided no separator contains a character of the prefix and
      every name is delimited by non-word characters. */
  lemma {:induction false} InterleaveTableNames(prefix: Prefix, gaps: seq<string>, names: seq<string>, c: char)
    requires |gaps| == |names| + 1 && c in prefix
    requires forall k :: 0 <= k < |gaps| ==> c !in gaps[k]
    requires forall k :: 0 <= k < |names| ==> IsIdentifier(names[k])
    requires forall k :: 0 < k < |gaps| ==> |gaps[k]| > 0 && !IsWordChar(gaps[k][0])
    requires forall k :: 0 < k < |names| ==> !IsWordChar(gaps[k][|gaps[k]| - 1])
    requires |names| > 0 && |gaps[0]| > 0 ==> !IsWordChar(gaps[0][|gaps[0]| - 1])
    ensures TableNames(prefix, Interleave(prefix, gaps, names)) == names
    decreases |names|
  {
    NoTablesWithout(prefix, gaps[0], c, 0);
    if |names| > 0 {
      var rest := Interleave(prefix, gaps[1..], names[1..]);
      InterleaveTableNames(prefix, gaps[1..], names[1..], c);
      assert |rest| > 0 && rest[0] == gaps[1][0] by {
        if |names| > 1 {
          assert rest == gaps[1] + (prefix + names[1] + Interleave(prefix, gaps[2..], names[2..]));
        }
      }
      TableNamesOfQualifiedName(prefix, names[0]);
      TableNamesConcat(prefix, prefix + names[0], rest);
      if |gaps[0]| > 0 {
        TableNamesConcat(prefix, gaps[0], prefix + names[0] + rest);
      } else {
        assert gaps[0] + (prefix + names[0] + rest) == prefix + names[0] + rest;
      }
    }
  }

  /** Appending text that names no table (it lacks a character of the prefix)
      after a non-word seam leaves the extracted names unchanged. */
  lemma AppendPlainText(prefix: Prefix, sql: string, text: string, c: char)
    requires SeparatedAt(sql, text) && c in prefix && c !in text
    ensures TableNames(prefix, sql + text) == TableNames(prefix, sql)
  {
    NoTablesWithout(prefix, text, c, 0);
    TableNamesConcat(prefix, sql, text);
  }

  /** Appending a prefixed name after a non-word character appends that name. */
  lemma AppendTable(prefix: Prefix, sql: string, name: string)
    requires |sql| > 0 && !IsWordChar(sql[|sql| - 1]) && IsIdentifier(name)
    ensures TableNames(prefix, sql + (prefix + name)) == TableNames(prefix, sql) + [name]
  {
    TableNamesOfQualifiedName(prefix, name);
    TableNamesConcat(prefix, sql, prefix + name);
  }

  /** A single prefixed name between two texts that name no table yields
      exactly that name. */
  lemma EnclosedTable(prefix: Prefix, before: string, name: string, after: string, c: char)
    requires c in prefix && c !in before && c !in after && IsIdentifier(name)
    requires |before| > 0 && !IsWordChar(before[|before| - 1])
    requires |after| > 0 && !IsWordChar(after[0])
    ensures TableNames(prefix, before + (prefix + name) + after) == [name]
  {
    NoTablesWithout(prefix, before, c, 0);
    AppendTable(prefix, before, name);
    AppendPlainText(prefix, before + (prefix + name), after, c);
  }

  /** A run of word characters reaching the end of the text ends there. */
  lemma {:induction false} WordRunToEnd(sql: string, j: nat)
    requires j <= |sql|
    requires forall k :: j <= k < |sql| ==> IsWordChar(sql[k])
    ensures WordRunEnd(sql, j) == |sql|
    decreases |sql| - j
  {
    if j < |sql| {
      WordRunToEnd(sql, j + 1);
    }
  }

  /** `lock_db\b` matches at `i`: the word is not followed by a word character. */
  predicate LockDbAt(sql: string, i: nat) {
    && i + 7 <= |sql|
    && sql[i..i + 7] == "lock_db"
    && (i + 7 == |sql| || !IsWordChar(sql[i + 7]))
  }

  /** `preg_match('/lock_db\b/', sql)`. */
  predicate MentionsLockDb(sql: string): (b: bool)
    ensures b ==> |sql| >= 7
  {
    exists i: nat | i < |sql| :: LockDbAt(sql, i)
  }

  /** `lock_db` followed by the end of the text or a non-word character
      matches `lock_db\b`, whatever comes before it. */
  lemma MentionsLockDbAfter(a: string, b: string)
    requires |b| == 0 || !IsWordChar(b[0])
    ensures MentionsLockDb(a + "lock_db" + b)
  {
    var sql := a + "lock_db" + b;
    assert sql[|a|..|a| + 7] == "lock_db";
    if |b| > 0 {
      assert sql[|a| + 7] == b[0];
    }
    assert LockDbAt(sql, |a|);
  }

  /** `lock_db` followed by a word character is not a match: `\b` fails. */
  lemma NoLockDbInsideWord()
    ensures !MentionsLockDb("lock_dbx")
  {
    forall i: nat | i < |"lock_dbx"|
      ensures !LockDbAt("lock_dbx", i)
    {
      if i == 0 {
        assert IsWordChar("lock_dbx"[7]);
      }
    }
  }

  /** Text lacking a character of `lock_db` cannot match `lock_db\b`. */
  lemma NoLockDbWithout(sql: string, c: char)
    requires c in "lock_db" && c !in sql
    ensures !MentionsLockDb(sql)
  {
    forall i: nat | i < |sql|
      ensures !LockDbAt(sql, i)
    {
      if i + 7 <= |sql| {
        var k :| 0 <= k < 7 && "lock_db"[k] == c;
        assert sql[i..i + 7][k] == sql[i + k];
      }
    }
  }
}
