/** The check run on an uploaded spreadsheet before anything else: which of
    the five required column names its header lacks (app.yp.py:129-140). */
module Schema {
  import opened Collections

  const NameColumn: string := "Nombre y apellidos completos"
  const StartColumn: string := "Hora de inicio"
  const CourseColumn: string := "Curso de interés"
  const EmailColumn: string := "Correo de contacto"
  const PhoneColumn: string := "Número de contacto"

  /** The required columns, in the order the error message lists them. */
  const RequiredColumns: seq<string> := [NameColumn, StartColumn, CourseColumn, EmailColumn, PhoneColumn]

  /** Holds of a column name the header does not contain. */
  function AbsentFrom(header: seq<string>): string -> bool
  {
    col => col !in header
  }

  /** The required columns the header lacks, in the order of RequiredColumns
      (the list comprehension over `required_columns`). */
  function MissingColumns(header: seq<string>): (missing: seq<string>)
    ensures forall col :: col in missing <==> col in RequiredColumns && col !in header
    ensures missing == [] <==> forall col :: col in RequiredColumns ==> col in header
    ensures NoDuplicates(missing)
  {
    RequiredColumnsDistinct();
    FilterNoDuplicates(RequiredColumns, AbsentFrom(header));
    var missing := Filter(RequiredColumns, AbsentFrom(header));
    assert missing != [] ==> missing[0] in missing;
    missing
  }

  /** The names in MissingColumns keep the order in which RequiredColumns
      lists them. */
  lemma MissingColumnsInRequiredOrder(header: seq<string>)
    ensures forall k, l :: 0 <= k < l < |MissingColumns(header)| ==>
              FirstIndex(RequiredColumns, MissingColumns(header)[k]) < FirstIndex(RequiredColumns, MissingColumns(header)[l])
  {
    RequiredColumnsDistinct();
    FilterKeepsOrder(RequiredColumns, AbsentFrom(header));
  }

  lemma RequiredColumnsDistinct()
    ensures NoDuplicates(RequiredColumns)
  {
  }

  /** A header that lacks only the email column yields exactly that name. */
  lemma MissingEmailColumn()
    ensures MissingColumns([NameColumn, StartColumn, CourseColumn, PhoneColumn]) == [EmailColumn]
  {
    var header := [NameColumn, StartColumn, CourseColumn, PhoneColumn];
    var missing := MissingColumns(header);
    assert EmailColumn in missing;
    assert forall col :: col in missing ==> col == EmailColumn;
    assert forall k :: 0 <= k < |missing| ==> missing[k] in missing;
    assert NoDuplicates(missing);
    assert |missing| >= 1;
    DistinctLength(missing);
    assert Elements(missing) == {EmailColumn};
  }
}
