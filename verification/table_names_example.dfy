/** The nested-subquery example of the router's unit tests for `table_names`,
    with prefix `t_` once the `{name}` placeholders have become `t_name`.
    The query's layout is collapsed to single spaces (any run of whitespace
    separates words alike). `Gap<k>` is the text between the k-th and the
    (k + 1)-th table reference, assembled from short pieces. */
module TableNamesExample {
  import opened Ascii
  import opened SqlPatterns

  const P: Prefix := "t_"

  /** Text that names no table with prefix `t_`, and starts with a non-word
      character unless it opens the query. */
  predicate PlainText(s: string, opening: bool) {
    '_' !in s && |s| > 0 && (opening || !IsWordChar(s[0]))
  }

  const Gap0: string :=
    "SELECT * FROM "

  lemma Gap0Facts()
    ensures PlainText(Gap0, true) && !IsWordChar(Gap0[|Gap0| - 1])
  {
    assert '_' !in "SELECT * FROM ";
  }

  const Gap1: string :=
    " u JOIN ( SELECT DISTINCT"
    + " u.id FROM "

  lemma Gap1Facts()
    ensures PlainText(Gap1, false) && !IsWordChar(Gap1[|Gap1| - 1])
  {
    assert '_' !in " u JOIN ( SELECT DISTINCT";
    assert '_' !in " u.id FROM ";
  }

  const Gap2: string :=
    " u JOIN "

  lemma Gap2Facts()
    ensures PlainText(Gap2, false) && !IsWordChar(Gap2[|Gap2| - 1])
  {
    assert '_' !in " u JOIN ";
  }

  const Gap3: string :=
    " ue1 ON ue1.userid = u.id"
    + " JOIN "

  lemma Gap3Facts()
    ensures PlainText(Gap3, false) && !IsWordChar(Gap3[|Gap3| - 1])
  {
    assert '_' !in " ue1 ON ue1.userid = u.id";
    assert '_' !in " JOIN ";
  }

  const Gap4a: string :=
    " e ON e.id = ue1.enrolid"
    + " WHERE u.id NOT IN ("
    + " SELECT DISTINCT ue.userid"

  lemma Gap4aFacts()
    ensures PlainText(Gap4a, false)
  {
    assert '_' !in " e ON e.id = ue1.enrolid";
    assert '_' !in " WHERE u.id NOT IN (";
    assert '_' !in " SELECT DISTINCT ue.userid";
  }

  const Gap4b: string :=
    " FROM "

  lemma Gap4bFacts()
    ensures PlainText(Gap4b, false) && !IsWordChar(Gap4b[|Gap4b| - 1])
  {
    assert '_' !in " FROM ";
  }

  const Gap4: string := Gap4a + Gap4b

  lemma Gap4Facts()
    ensures PlainText(Gap4, false) && !IsWordChar(Gap4[|Gap4| - 1])
  {
    Gap4aFacts();
    Gap4bFacts();
  }

  const Gap5: string :=
    " ue JOIN "

  lemma Gap5Facts()
    ensures PlainText(Gap5, false) && !IsWordChar(Gap5[|Gap5| - 1])
  {
    assert '_' !in " ue JOIN ";
  }

  const Gap6a: string :=
    " e ON (e.id = ue.enrolid"
    + " AND e.courseid = 1)"
    + " WHERE ue.status = 'active'"

  lemma Gap6aFacts()
    ensures PlainText(Gap6a, false) && !IsWordChar(Gap6a[|Gap6a| - 1])
  {
    assert '_' !in " e ON (e.id = ue.enrolid";
    assert '_' !in " AND e.courseid = 1)";
    assert '_' !in " WHERE ue.status = 'active'";
  }

  const Gap6b: string :=
    " AND e.status = 'enabled'"
    + " AND ue.timestart < now()"
    + " AND (ue.timeend = 0"

  lemma Gap6bFacts()
    ensures PlainText(Gap6b, false)
  {
    assert '_' !in " AND e.status = 'enabled'";
    assert '_' !in " AND ue.timestart < now()";
    assert '_' !in " AND (ue.timeend = 0";
  }

  const Gap6c: string :=
    " OR ue.timeend > now())"
    + " ) ) je ON je.id = u.id"
    + " JOIN ( SELECT DISTINCT"

  lemma Gap6cFacts()
    ensures PlainText(Gap6c, false)
  {
    assert '_' !in " OR ue.timeend > now())";
    assert '_' !in " ) ) je ON je.id = u.id";
    assert '_' !in " JOIN ( SELECT DISTINCT";
  }

  const Gap6d: string :=
    " ra.userid FROM "

  lemma Gap6dFacts()
    ensures PlainText(Gap6d, false) && !IsWordChar(Gap6d[|Gap6d| - 1])
  {
    assert '_' !in " ra.userid FROM ";
  }

  const Gap6: string := Gap6a + Gap6b + Gap6c + Gap6d

  lemma Gap6Facts()
    ensures PlainText(Gap6, false) && !IsWordChar(Gap6[|Gap6| - 1])
  {
    Gap6aFacts();
    Gap6bFacts();
    Gap6cFacts();
    Gap6dFacts();
  }

  const Gap7a: string :=
    " ra WHERE ra.roleid"
    + " IN (1, 2, 3)"
    + " AND ra.contextid = 'ctx' )"

  lemma Gap7aFacts()
    ensures PlainText(Gap7a, false) && !IsWordChar(Gap7a[|Gap7a| - 1])
  {
    assert '_' !in " ra WHERE ra.roleid";
    assert '_' !in " IN (1, 2, 3)";
    assert '_' !in " AND ra.contextid = 'ctx' )";
  }

  const Gap7b: string :=
    " rainner ON"
    + " rainner.userid = u.id"
    + " WHERE u.deleted = 0"

  lemma Gap7bFacts()
    ensures PlainText(Gap7b, false)
  {
    assert '_' !in " rainner ON";
    assert '_' !in " rainner.userid = u.id";
    assert '_' !in " WHERE u.deleted = 0";
  }

  const Gap7: string := Gap7a + Gap7b

  lemma Gap7Facts()
    ensures PlainText(Gap7, false)
  {
    Gap7aFacts();
    Gap7bFacts();
  }

  const Gaps: seq<string> := [Gap0, Gap1, Gap2, Gap3, Gap4, Gap5, Gap6, Gap7]
  const Names: seq<string> := ["user", "user", "user_enrolments", "enrol", "user_enrolments", "enrol", "role_assignments"]

  /** The query: the gaps with a prefixed table name between each pair,
      `Gap0 t_user Gap1 t_user Gap2 t_user_enrolments ... Gap7`. */
  const NestedQuery: string := Interleave(P, Gaps, Names)

  /** The four table names of the query are identifiers. */
  lemma NamesAreIdentifiers()
    ensures IsIdentifier("user") && IsIdentifier("user_enrolments")
    ensures IsIdentifier("enrol") && IsIdentifier("role_assignments")
  {
  }

  /** Every table of the nested query is found, in order of appearance and
      with repeats: the outer query's, both subqueries' and the innermost
      `NOT IN` subquery's. */
  lemma NestedQueryTableNames()
    ensures TableNames("t_", NestedQuery) ==
      ["user", "user", "user_enrolments", "enrol", "user_enrolments", "enrol", "role_assignments"]
  {
    Gap0Facts();
    Gap1Facts();
    Gap2Facts();
    Gap3Facts();
    Gap4Facts();
    Gap5Facts();
    Gap6Facts();
    Gap7Facts();
    NamesAreIdentifiers();
    InterleaveTableNames(P, Gaps, Names, '_');
  }
}
