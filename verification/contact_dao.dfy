/**
 * main/src/dao/ContactDaoImplementation.java: the SQL text and the bound
 * parameters of the contact searches and the contact update. Opening the
 * connection, executing the statement and reading rows are left out; a
 * statement is the text handed to `prepareStatement` plus the values bound
 * to its placeholders, in placeholder order.
 */
module ContactDao {
  import opened Results
  import opened JavaText
  import opened Calendar
  import ContactModel

  /** A value bound with `setString`, `setDate`, `setTimestamp` or `setInt`. */
  datatype Param = Text(text: Option<string>) | Day(date: Date) | Stamp(stamp: DateTime) | Number(number: Int32)

  datatype Statement = Statement(sql: string, params: seq<Param>)

  /** A search criterion: a column name and the text to look for. */
  datatype Criterion = Criterion(column: string, value: string)

  const SelectWhere: string := "SELECT * FROM contacts WHERE "

  /** The bound value of a LIKE search: the text wrapped in `%`. */
  function Contains(value: string): Param
  {
    Text(Some("%" + value + "%"))
  }

  /** One `<column> LIKE ?` fragment; the column goes into the SQL verbatim. */
  function Fragment(column: string): string
  {
    column + " LIKE ?"
  }

  /** The fragments of the criteria joined with " AND ". */
  function Conjunction(criteria: seq<Criterion>): string
  {
    if |criteria| == 0 then ""
    else if |criteria| == 1 then Fragment(criteria[0].column)
    else Conjunction(criteria[..|criteria| - 1]) + " AND " + Fragment(criteria[|criteria| - 1].column)
  }

  /** `searchBySingleField(field, value)` */
  function SearchBySingleField(field: string, value: string): (r: Statement)
    ensures StartsWith(r.sql, SelectWhere + field)
    ensures EndsWith(r.sql, " LIKE ?") && |r.sql| == |SelectWhere| + |field| + 7
    ensures r.params == [Contains(value)]
    ensures CountChar(r.sql, '?') == CountChar(field, '?') + 1
  {
    SelectPlaceholders(field);
    Statement(SelectWhere + Fragment(field), [Contains(value)])
  }

  lemma SelectPlaceholders(field: string)
    ensures StartsWith(SelectWhere + Fragment(field), SelectWhere + field)
    ensures CountChar(SelectWhere + Fragment(field), '?') == CountChar(field, '?') + 1
  {
    StartsWithConcat(SelectWhere, field, " LIKE ?");
    SelectWherePlain(Fragment(field));
    FragmentPlaceholders(field);
  }

  /** The fixed head of a search adds no placeholder. */
  lemma SelectWherePlain(body: string)
    ensures CountChar(SelectWhere + body, '?') == CountChar(body, '?')
  {
    assert '?' !in SelectWhere;
    CountCharConcat(SelectWhere, body, '?');
  }

  lemma FragmentPlaceholders(column: string)
    ensures CountChar(Fragment(column), '?') == CountChar(column, '?') + 1
  {
    CountCharConcat(column, " LIKE ?", '?');
    CountCharLast(" LIKE ?", '?');
  }

  /** `searchByMultipleFields(fields)`, with the map given as its entries in
      iteration order. An empty map yields no statement at all. */
  method SearchByMultipleFields(criteria: seq<Criterion>) returns (r: Option<Statement>)
    ensures r.None? <==> |criteria| == 0
    ensures r.Some? ==> r.value.sql == SelectWhere + Conjunction(criteria)
    ensures r.Some? ==> |r.value.params| == |criteria|
    ensures r.Some? ==> forall j :: 0 <= j < |criteria| ==> r.value.params[j] == Contains(criteria[j].value)
  {
    if |criteria| == 0 {
      return None;
    }
    var clause := "";
    var values: seq<Param> := [];
    var i := 0;
    while i < |criteria|
      invariant 0 <= i <= |criteria|
      invariant i == 0 ==> clause == ""
      invariant 0 < i < |criteria| ==> clause == Conjunction(criteria[..i]) + " AND "
      invariant i == |criteria| ==> clause == Conjunction(criteria[..i])
      invariant |values| == i
      invariant forall j :: 0 <= j < i ==> values[j] == Contains(criteria[j].value)
    {
      ConjunctionStep(criteria, i);
      clause := clause + Fragment(criteria[i].column);
      if i < |criteria| - 1 {
        clause := clause + " AND ";
      }
      values := values + [Contains(criteria[i].value)];
      i := i + 1;
    }
    assert criteria[..i] == criteria;
    return Some(Statement(SelectWhere + clause, values));
  }

  lemma ConjunctionStep(criteria: seq<Criterion>, i: nat)
    requires i < |criteria|
    ensures i == 0 ==> Conjunction(criteria[..i + 1]) == Fragment(criteria[i].column)
    ensures i > 0 ==> Conjunction(criteria[..i + 1]) == Conjunction(criteria[..i]) + " AND " + Fragment(criteria[i].column)
  {
    assert criteria[..i + 1][..i] == criteria[..i];
  }

  /** The number of `?` in the column names. */
  function Placeholders(criteria: seq<Criterion>): nat
  {
    if |criteria| == 0 then 0
    else Placeholders(criteria[..|criteria| - 1]) + CountChar(criteria[|criteria| - 1].column, '?')
  }

  /** There is one placeholder per criterion, besides any `?` the column
      names themselves bring into the SQL. */
  lemma {:induction false} ConjunctionPlaceholders(criteria: seq<Criterion>)
    ensures CountChar(Conjunction(criteria), '?') == |criteria| + Placeholders(criteria)
  {
    if |criteria| == 1 {
      FragmentPlaceholders(criteria[0].column);
    } else if |criteria| > 1 {
      var init := criteria[..|criteria| - 1];
      var last := criteria[|criteria| - 1].column;
      ConjunctionPlaceholders(init);
      assert '?' !in " AND ";
      CountCharConcat(Conjunction(init), " AND ", '?');
      CountCharConcat(Conjunction(init) + " AND ", Fragment(last), '?');
      FragmentPlaceholders(last);
    }
  }

  /** Each fragment is the column and seven characters, and the separators
      add five characters each: exactly one fewer " AND " than criteria. */
  lemma {:induction false} ConjunctionLength(criteria: seq<Criterion>)
    requires |criteria| > 0
    ensures |Conjunction(criteria)| == ColumnsLength(criteria) + 7 * |criteria| + 5 * (|criteria| - 1)
  {
    if |criteria| > 1 {
      ConjunctionLength(criteria[..|criteria| - 1]);
    }
  }

  function ColumnsLength(criteria: seq<Criterion>): nat
  {
    if |criteria| == 0 then 0
    else ColumnsLength(criteria[..|criteria| - 1]) + |criteria[|criteria| - 1].column|
  }

  /** With column names free of `?`, placeholders and bound values agree in number. */
  lemma MultipleFieldsPlaceholdersMatchParams(criteria: seq<Criterion>)
    requires forall j :: 0 <= j < |criteria| ==> '?' !in criteria[j].column
    ensures CountChar(SelectWhere + Conjunction(criteria), '?') == |criteria|
  {
    NoPlaceholdersInColumns(criteria);
    SelectWherePlain(Conjunction(criteria));
  }

  lemma {:induction false} NoPlaceholdersInColumns(criteria: seq<Criterion>)
    requires forall j :: 0 <= j < |criteria| ==> '?' !in criteria[j].column
    ensures Placeholders(criteria) == 0
    ensures CountChar(Conjunction(criteria), '?') == |criteria|
  {
    ConjunctionPlaceholders(criteria);
    if |criteria| > 0 {
      NoPlaceholdersInColumns(criteria[..|criteria| - 1]);
    }
  }

  // ---------------------------------------------------------------------------
  // updateContact
  // ---------------------------------------------------------------------------

  /** The columns set by `updateContact`, in placeholder order. */
  const UpdateColumns: seq<string> := ["first_name", "middle_name", "last_name", "nickname",
    "phone_primary", "phone_secondary", "email", "linkedin_url", "birth_date", "updated_at"]

  /** `col=?` assignments joined with ", ". */
  function Assignments(columns: seq<string>): string
  {
    if |columns| == 0 then ""
    else if |columns| == 1 then columns[0] + "=?"
    else Assignments(columns[..|columns| - 1]) + ", " + columns[|columns| - 1] + "=?"
  }

  const UpdateSql: string := "UPDATE contacts SET " + Assignments(UpdateColumns) + " WHERE contact_id=?"

  /** The only exception that escapes: `Date.valueOf(null)` or
      `Timestamp.valueOf(null)` throw NullPointerException, which is not an
      SQLException and so is not swallowed. */
  datatype Failure = NullPointer

  /** `updateContact(contact)`: ten column values in column order, then the id. */
  function UpdateContactParams(c: ContactModel.Contact): (r: Result<seq<Param>, Failure>)
    ensures r.Err? <==> c.birthDate.None? || c.updatedAt.None?
    ensures r.Ok? ==> |r.value| == |UpdateColumns| + 1
    ensures r.Ok? ==> r.value[|UpdateColumns|] == Number(c.contactId)
    ensures r.Ok? ==> r.value[..8] == [Text(c.firstName), Text(c.middleName), Text(c.lastName), Text(c.nickname),
      Text(c.phonePrimary), Text(c.phoneSecondary), Text(c.email), Text(c.linkedinUrl)]
    ensures r.Ok? ==> r.value[8] == Day(c.birthDate.value) && r.value[9] == Stamp(c.updatedAt.value)
  {
    if c.birthDate.None? || c.updatedAt.None? then Err(NullPointer)
    else Ok([Text(c.firstName), Text(c.middleName), Text(c.lastName), Text(c.nickname),
      Text(c.phonePrimary), Text(c.phoneSecondary), Text(c.email), Text(c.linkedinUrl),
      Day(c.birthDate.value), Stamp(c.updatedAt.value), Number(c.contactId)])
  }

  lemma {:induction false} AssignmentsPlaceholders(columns: seq<string>)
    requires forall j :: 0 <= j < |columns| ==> '?' !in columns[j]
    ensures CountChar(Assignments(columns), '?') == |columns|
  {
    CountCharLast("=?", '?');
    if |columns| == 1 {
      CountCharConcat(columns[0], "=?", '?');
    } else if |columns| > 1 {
      var init := columns[..|columns| - 1];
      var last := columns[|columns| - 1];
      AssignmentsPlaceholders(init);
      assert '?' !in ", ";
      CountCharConcat(Assignments(init), ", ", '?');
      CountCharConcat(Assignments(init) + ", ", last, '?');
      CountCharConcat(Assignments(init) + ", " + last, "=?", '?');
    }
  }

  lemma UpdateColumnsPlain()
    ensures forall j :: 0 <= j < |UpdateColumns| ==> '?' !in UpdateColumns[j]
  {
    forall j | 0 <= j < |UpdateColumns| ensures '?' !in UpdateColumns[j] {
    }
  }

  /** The statement has one placeholder per bound parameter: the ten columns
      and the id. */
  lemma UpdatePlaceholdersMatchParams(c: ContactModel.Contact)
    requires UpdateContactParams(c).Ok?
    ensures CountChar(UpdateSql, '?') == |UpdateContactParams(c).value|
  {
    var body := Assignments(UpdateColumns);
    assert CountChar(body, '?') == 10 by {
      UpdateColumnsPlain();
      AssignmentsPlaceholders(UpdateColumns);
    }
    UpdateFrame(body);
  }

  /** The fixed text around the assignments holds only the id's placeholder. */
  lemma UpdateFrame(body: string)
    ensures CountChar("UPDATE contacts SET " + body + " WHERE contact_id=?", '?') == CountChar(body, '?') + 1
  {
    var prefix := "UPDATE contacts SET ";
    var suffix := " WHERE contact_id=?";
    assert '?' !in prefix;
    CountCharLast(suffix, '?');
    CountCharConcat(prefix, body, '?');
    CountCharConcat(prefix + body, suffix, '?');
  }
}
