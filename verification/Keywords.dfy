/** The PostgreSQL 12 keywords quote_ident quotes: the table of internal/rule/names.go. */
module Keywords {
  // Reserved words, and words for types and functions; then words for columns.
  const Reserved1: set<string> := {
    "all", "analyse", "analyze", "and", "any", "array", "as", "asc", "asymmetric", "authorization", "binary",
    "both", "case", "cast", "check", "collate", "collation", "column", "concurrently", "constraint", "create",
    "cross", "current_catalog", "current_date", "current_role"
  }

  const Reserved2: set<string> := {
    "current_schema", "current_time", "current_timestamp", "current_user", "default", "deferrable", "desc",
    "distinct", "do", "else", "end", "except", "false", "fetch", "for", "foreign", "freeze", "from", "full",
    "grant", "group", "having", "ilike", "in", "initially"
  }

  const Reserved3: set<string> := {
    "inner", "intersect", "into", "is", "isnull", "join", "lateral", "leading", "left", "like", "limit",
    "localtime", "localtimestamp", "natural", "not", "notnull", "null", "offset", "on", "only", "or", "order",
    "outer", "overlaps", "placing"
  }

  const Reserved4: set<string> := {
    "primary", "references", "returning", "right", "select", "session_user", "similar", "some", "symmetric",
    "table", "tablesample", "then", "to", "trailing", "true", "union", "unique", "user", "using", "variadic",
    "verbose", "when", "where", "window", "with"
  }

  const Column1: set<string> := {
    "between", "bigint", "bit", "boolean", "char", "character", "coalesce", "dec", "decimal", "exists", "extract",
    "float", "greatest", "grouping", "inout", "int", "integer", "interval", "least", "national", "nchar", "none",
    "nullif", "numeric", "out"
  }

  const Column2: set<string> := {
    "overlay", "position", "precision", "real", "row", "setof", "smallint", "substring", "time", "timestamp",
    "treat", "trim", "values", "varchar", "xmlattributes", "xmlconcat", "xmlelement", "xmlexists", "xmlforest",
    "xmlnamespaces", "xmlparse", "xmlpi", "xmlroot", "xmlserialize", "xmltable"
  }

  const Table: set<string> := Reserved1 + Reserved2 + Reserved3 + Reserved4 + Column1 + Column2

  lemma AnyIsReserved()
    ensures "any" in Reserved1 && "first" !in Reserved1 + Reserved2
  {
    hide Reserved3, Reserved4, Column1, Column2;
  }

  lemma FirstIsNotReserved()
    ensures "first" !in Reserved3 + Reserved4
  {
    hide Reserved1, Reserved2, Column1, Column2;
  }

  lemma FirstIsNoColumnWord()
    ensures "first" !in Column1 + Column2
  {
    hide Reserved1, Reserved2, Reserved3, Reserved4;
  }

  /** Of the two method words of synchronous_standby_names, only ANY is a keyword. */
  lemma AnyIsFirstIsNot()
    ensures "any" in Table && "first" !in Table
  {
    hide Reserved1, Reserved2, Reserved3, Reserved4, Column1, Column2;
    AnyIsReserved();
    FirstIsNotReserved();
    FirstIsNoColumnWord();
  }
}
