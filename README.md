# jpa-search-criteria, modelled in Dafny

This project models the query-building core of the Java library
jpa-search-criteria. `SearchCriteria` is a fluent builder:

- `select`/`selectFrom`/`from`/`join` record a root table and an ordered chain of join points in a `Joiner`.
- `where`/`and`/`or` resolve a key such as `"alias.column"` to a table alias and an entity field, then append a clause.
- `withPage` stores a page request.
- `toList`/`toPage` rebuild the map from alias to JPA `From` handle, select the column fields of the result class, and fold the clauses left to right into one WHERE predicate.

The helpers `StringHelper`, `CollectionHelper` and `CriteriaHelper` are modelled as well.

How the model stands in for Java:

- **Null, exceptions and returns.** A Java reference that may be null is an `Option`. An exception is an `Error` variant: `NullPointer`, `IndexOutOfBounds`, and one variant per situation that raises a `QueryException`. A method that returns `this` returns an `Outcome`, either `Pass` or `Fail(error)`.
- **Reflection.** What the library reads through reflection is plain data, a `Schema`. For each entity class it holds the `@Table` name and the fields with their persistence annotations, so `getFieldsOf` and the annotation lookups become functions on that data.
- **JPA objects.** JPA's `Root`, `Join`, `Path` and `Predicate` objects are symbolic values: `Root(cls)`, `Join(parent, fieldName)`, `Attr(handle, name)`, and a predicate tree built from the `CriteriaBuilder` calls the clauses make.
- **Row semantics.** A reference meaning is given next to the predicate tree. `LikeMatch` is SQL `LIKE` with `%` and `_` and no escape character. `Eval` decides whether a WHERE clause keeps a row, with NULL comparisons dropping the row.

What the model covers and proves:

- **Class state.** `Joiner` and `SearchCriteria` are classes whose methods update their fields as the Java objects do.
- **Loops against functions.** Each Java loop is a `while` loop proved against a function:
  - `initJoinMap` against `Realize`;
  - `getPredicate` against `Compile`;
  - `getObjectFrom` against `FieldValueMap`.
- **Properties.** Lemmas state what those functions mean:
  - the join map's keys and last-wins entries;
  - the left fold without precedence and the first failing clause;
  - what each clause operator keeps.
- **Behaviour kept as written.** These are modelled exactly as the code behaves:
  - `isEmpty` and `isNotEmpty` answer the opposite of their names.
  - Because of that inversion, `getLast` is null once any join exists.
  - `where(key, ForCollection, values)` appends only a null or empty collection, while `or` appends any non-null one.
  - `getObjectFrom` never copies the last field.
  - `afterOf("", "")` throws.
  - `withPage(Integer.MIN_VALUE, ...)` wraps to the largest page index.

Two small members that SearchCriteria.java calls (lines 193 and 202) are not defined in Joiner.java or TableJoin.java, so their behaviour is assumed here:

- `Joiner.getJoinPoint(name)` returns the root for a blank alias. For any other alias it returns the first point, root included, whose alias is `name`.
- `TableJoin.withColumn(column)` keeps the alias and replaces the column.

## Model

| member | source | states |
|---|---|---|
| Base.FindFirst | src/main/java/ananta/api/models/Joiner.java:79-89 | `filter(p).findFirst()` is empty exactly when no element satisfies `p`, and otherwise is the element at the first index that does |
| StringHelper.BeforeOf | src/main/java/ananta/api/helpers/StringHelper.java:22-31 | "" for a null argument or a missing word; otherwise a prefix of the origin that the word follows, with no earlier occurrence of the word inside it |
| StringHelper.AfterOf | src/main/java/ananta/api/helpers/StringHelper.java:11-20 | "" for a null argument or a missing word; otherwise, unless both are empty, the origin from one character past the start of the first match, whatever the word's length |
| StringHelper.AfterOfSkipsOneChar | src/main/java/ananta/api/helpers/StringHelper.java:15-19 | `afterOf("ab", "xaby")` is `"by"`: only one character of a longer word is skipped |
| StringHelper.AfterOfFailsOnlyOnEmpty | src/main/java/ananta/api/helpers/StringHelper.java:11-20 | `substring(index + 1)` throws exactly for an empty word in an empty origin |
| StringHelper.SplitRoundTrip | src/main/java/ananta/api/helpers/StringHelper.java:11-31 | for a one-character word that occurs, `beforeOf + word + afterOf` gives back the origin |
| StringHelper.NotBlankHasVisibleChar | src/main/java/ananta/api/helpers/StringHelper.java:33-39 | `isNotBlank` holds exactly for a non-null string with a non-whitespace character; null and "" are blank |
| StringHelper.IndexOfCharFound | src/main/java/ananta/api/models/TableJoin.java:31-35 | for the one-character separator, `indexOf` finds it exactly when `contains` does |
| CollectionHelper.EmptinessIsInverted | src/main/java/ananta/api/helpers/CollectionHelper.java:56-62 | `isEmpty` holds exactly for non-null collections with elements, `isNotEmpty` exactly for null or empty ones |
| CollectionHelper.GetLastElementOf | src/main/java/ananta/api/helpers/CollectionHelper.java:49-54 | a list with elements gives null, an empty list throws IndexOutOfBounds, a null list throws NullPointer |
| CollectionHelper.MapOfKeys | src/main/java/ananta/api/helpers/CollectionHelper.java:18-20 | the map's keys are exactly the keys of the items |
| CollectionHelper.MapOfFirstWins | src/main/java/ananta/api/helpers/CollectionHelper.java:18-20 | on duplicate keys the merge keeps the value of the first item |
| CollectionHelper.MapOfItemsFirstWins | src/main/java/ananta/api/helpers/CollectionHelper.java:22-24 | the key-only overload maps each key to the first item with that key |
| CollectionHelper.ContainersHoldExactly | src/main/java/ananta/api/helpers/CollectionHelper.java:26-47 | `listOf` keeps the items in order, `setOf` holds exactly the items, and `emptyList`/`emptyMap` are empty |
| Reflection.NonStatic | src/main/java/ananta/api/helpers/ReflectionHelper.java:99-106 | the non-static fields are exactly the fields that are not static, none added |
| Reflection.NonStaticAppend | src/main/java/ananta/api/helpers/ReflectionHelper.java:99-106 | the filter keeps declaration order and every occurrence: it distributes over concatenation |
| Reflection.NonStaticSingle | src/main/java/ananta/api/helpers/ReflectionHelper.java:99-106 | a single field is kept exactly when it is not static |
| Reflection.TypeOf | src/main/java/ananta/api/helpers/ReflectionHelper.java:384-392 | a collection field gives its element type (possibly absent), any other field its declared type |
| CriteriaHelper.GetTableNameOf | src/main/java/ananta/api/helpers/CriteriaHelper.java:23-30 | succeeds exactly when the class has a `@Table` name, and returns it; otherwise NullPointer for a null class, else the missing-annotation error |
| CriteriaHelper.TableNameOf | src/main/java/ananta/api/helpers/CriteriaHelper.java:60-65 | succeeds exactly when the entity has a `@Table` name, and returns it; otherwise the entity-without-table error, null included |
| CriteriaHelper.ColumnClassification | src/main/java/ananta/api/helpers/CriteriaHelper.java:32-49 | primitive, wrapper and String fields are columns; other collections are not; any other field is a column exactly when it is not a mapping column |
| CriteriaHelper.ColumnAndMappingOverlap | src/main/java/ananta/api/helpers/CriteriaHelper.java:32-49 | a String field with a relationship annotation is both a column and a mapping column |
| CriteriaHelper.GetEntityOf | src/main/java/ananta/api/helpers/CriteriaHelper.java:51-57 | a plain field gives its type; a collection gives its element type, or the no-entity error when it is absent; a success agrees with `getTypeOf` |
| TableJoins.Of | src/main/java/ananta/api/models/TableJoin.java:29-37 | null key throws; a key without '.' is all column with no alias; a key with '.' gets an alias |
| TableJoins.OfRoundTrip | src/main/java/ananta/api/models/TableJoin.java:29-37 | for a key with '.', the alias has no '.' and `alias + "." + column` is the key |
| TableJoins.OfSplitsAtFirstDot | src/main/java/ananta/api/models/TableJoin.java:29-37 | `"a.b.c"` gives alias `a` and column `b.c` |
| TableJoins.GetNameOrElse | src/main/java/ananta/api/models/TableJoin.java:39-41 | the fallback when the alias is null or blank, otherwise the alias |
| TableJoins.KeyAliasResolution | src/main/java/ananta/api/models/TableJoin.java:29-41 | a key without '.' resolves to the fallback alias; a key with a visible alias resolves to it and splits back into the key |
| TableJoins.WithColumn | src/main/java/ananta/api/SearchCriteria.java:202 | the alias is kept and the column is the given one |
| JoinPoints.GetType | src/main/java/ananta/api/models/JoinPoint.java:31-36 | without a field, the point's class; with a field, that field's type or element type |
| JoinPoints.GetTypeIgnoresClassWithField | src/main/java/ananta/api/models/JoinPoint.java:31-36 | two points with the same field have the same type whatever their classes |
| WhereClauses.GetPredicate | src/main/java/ananta/api/models/WhereClauseForString.java:32-55 | one atom on the clause's column of the given handle: EQUAL gives `equal` and NOT_EQUAL `notEqual`; LESS_THAN, LESS_THAN_OR_EQUAL, LARGER_THAN and LARGER_THAN_OR_EQUAL give `lessThan`, `lessThanOrEqualTo`, `greaterThan` and `greaterThanOrEqualTo` with the column on the left; `in` with the given collection for ForCollection; for ForString `notLike` exactly for the NOT_ operators, with the pattern `%v%`, `v%` or `%v` for every value `v`, its `%` and `_` unescaped |
| WhereClauses.Positive | src/main/java/ananta/api/models/WhereClauseForString.java:32-55 | maps each negated string operator to a positive one and leaves positive ones as they are |
| WhereClauses.StringClauseMeaning | src/main/java/ananta/api/models/WhereClauseForString.java:32-55 | for a value without wildcards, LIKE/START_WITH/END_WITH keep exactly the rows whose text contains/starts with/ends with it, and the NOT_ forms the non-null texts that do not |
| WhereClauses.NegatedSharesPattern | src/main/java/ananta/api/models/WhereClauseForString.java:32-55 | each NOT_ operator is `notLike` with exactly the pattern its positive operator passes to `like` |
| WhereClauses.NegationComplements | src/main/java/ananta/api/models/WhereClauseForString.java:32-55 | on a non-null text a NOT_ operator keeps exactly the rows its positive operator drops; on NULL both drop the row |
| WhereClauses.AllClauseMeaning | src/main/java/ananta/api/models/WhereClauseForAll.java:33-43 | EQUAL keeps rows whose column equals the value; NOT_EQUAL keeps non-null columns that differ |
| WhereClauses.NumberClauseMeaning | src/main/java/ananta/api/models/WhereClauseForNumber.java:32-46 | each comparison puts the column on the left; the inclusive forms add equality to the strict ones; numbers, texts and booleans (false before true) all compare |
| WhereClauses.CollectionClauseMeaning | src/main/java/ananta/api/models/WhereClauseForCollection.java:34-44 | IN keeps the rows whose non-null column is in the collection; a null collection keeps none |
| WhereClauses.ValuesAreNotEscaped | src/main/java/ananta/api/models/WhereClauseForString.java:32-55 | values are not escaped: START_WITH "a%" keeps the text "ab", which does not start with "a%" |
| Predicates.LikeLiteral | src/main/java/ananta/api/models/WhereClauseForString.java:32-55 | a pattern without wildcards matches only itself |
| Predicates.LikeAnything | src/main/java/ananta/api/models/WhereClauseForString.java:32-55 | `%` matches every text |
| Predicates.LikePrefix | src/main/java/ananta/api/models/WhereClauseForString.java:32-55 | `v%` matches exactly the texts starting with `v` |
| Predicates.LikeLeadingPercent | src/main/java/ananta/api/models/WhereClauseForString.java:32-55 | `%q` matches exactly when some suffix matches `q` |
| Predicates.LikeSuffix | src/main/java/ananta/api/models/WhereClauseForString.java:32-55 | `%v` matches exactly the texts ending with `v` |
| Predicates.LikeInfix | src/main/java/ananta/api/models/WhereClauseForString.java:32-55 | `%v%` matches exactly the texts containing `v` |
| Joining.FirstJoinField | src/main/java/ananta/api/models/Joiner.java:79-89 | for a present class, the first field of that type or a collection of it; for a null class, NullPointer once a collection field is reached, else none |
| Joining.GetJoinField | src/main/java/ananta/api/models/Joiner.java:77-91 | with both classes present, succeeds exactly when some field links them and names the first one, else the no-join-field error; with either class null it throws NullPointer |
| Joining.Links | src/main/java/ananta/api/models/Joiner.java:61-73 | one handle per point, each joined from the previous handle along the point's join field |
| Joining.ChainIsLinksPutInOrder | src/main/java/ananta/api/models/Joiner.java:61-73 | the loop succeeds exactly when every join field is found; then the map holds each handle put in order, else the first error is raised |
| Joining.PutAllKeys | src/main/java/ananta/api/models/Joiner.java:69 | after the puts the keys are the old keys plus every point's alias |
| Joining.PutAllUntouched | src/main/java/ananta/api/models/Joiner.java:69 | an alias no point uses keeps its entry |
| Joining.PutAllLastWins | src/main/java/ananta/api/models/Joiner.java:69 | an alias maps to the handle of the last point using it |
| Joining.RealizeMap | src/main/java/ananta/api/models/Joiner.java:51-74 | after a successful `initJoinMap`, the keys are the root's and every point's alias, each alias maps to its last point's handle, and the root keeps its entry unless an alias is reused |
| Joining.Joiner.constructor | src/main/java/ananta/api/models/Joiner.java:31-38 | starts with no root, no join points and an empty map |
| Joining.Joiner.Add | src/main/java/ananta/api/models/Joiner.java:31-38 | the first point becomes the root, later ones are appended whatever their alias; the sequence of all points grows by exactly that point |
| Joining.Joiner.GetJoin | src/main/java/ananta/api/models/Joiner.java:40-44 | the handle mapped to the alias, else the can't-find-table error naming it |
| Joining.Joiner.GetLast | src/main/java/ananta/api/models/Joiner.java:47-49 | the root while there are no joins, null once there is one |
| Joining.Joiner.GetJoinPoint | src/main/java/ananta/api/SearchCriteria.java:192-194 | a blank alias gives the root; any other alias gives the first point, root included, that carries it, present exactly when some point does |
| Joining.Joiner.InitJoinMap | src/main/java/ananta/api/models/Joiner.java:51-74 | clears the map; fails with NullPointer without a root; otherwise roots the query at the root's class and leaves the map and completion of `Realize` |
| Criteria.PageIndexOf | src/main/java/ananta/api/SearchCriteria.java:357-368 | the page index is never negative, is `pageNumber - 1` for positive numbers, 0 otherwise, and the 32-bit wrap of the least `int` gives the greatest |
| Criteria.ColumnNames | src/main/java/ananta/api/SearchCriteria.java:476-481 | a name is selected exactly when some field with that name is a column |
| Criteria.ColumnNamesAppend | src/main/java/ananta/api/SearchCriteria.java:476-481 | the column filter keeps declaration order and every occurrence: it distributes over concatenation |
| Criteria.ColumnNamesSingle | src/main/java/ananta/api/SearchCriteria.java:476-481 | a single field gives its name exactly when it is a column |
| Criteria.SelectFieldsInDeclarationOrder | src/main/java/ananta/api/SearchCriteria.java:476-481 | when the class's fields are one run followed by another, the selected names of the first run come first, in order, then those of the second |
| Criteria.SelectFields | src/main/java/ananta/api/SearchCriteria.java:476-481 | the selected names are exactly those of the non-static column fields of the result class |
| Criteria.Selections | src/main/java/ananta/api/SearchCriteria.java:472-474 | one selection per field, each that field read from the root |
| Criteria.ColumnField | src/main/java/ananta/api/SearchCriteria.java:205-216 | the first non-static field whose name or `@Column` name is the column, none exactly when no field answers |
| Criteria.JoinTableAnnotationDecides | src/main/java/ananta/api/SearchCriteria.java:150-166 | a present `@JoinTable` decides alone: `@JoinColumn` and `@ManyToMany` are not consulted |
| Criteria.FieldWithJoinTable | src/main/java/ananta/api/SearchCriteria.java:146-171 | the first non-static field of the last class whose name or join annotation names the table, none exactly when no field does |
| Criteria.TableNameFrom | src/main/java/ananta/api/SearchCriteria.java:218-220 | fails exactly without a root; otherwise the clause's alias, or the root's alias when it is blank |
| Criteria.ClauseHandle | src/main/java/ananta/api/SearchCriteria.java:385-386 | succeeds exactly when the resolved alias is in the join map, giving its handle; otherwise the can't-find-table error naming it |
| Criteria.Compile | src/main/java/ananta/api/SearchCriteria.java:382-400 | no clauses give no predicate; a successful fold of at least one clause gives a predicate |
| Criteria.CompileSingle | src/main/java/ananta/api/SearchCriteria.java:388-392 | one clause compiles to its own predicate on its alias's handle, whatever its flag, or to the error resolving it |
| Criteria.CompileKeepsError | src/main/java/ananta/api/SearchCriteria.java:382-400 | once a prefix fails, the whole fold fails with the same error |
| Criteria.CompileFailsOnFirstUnmapped | src/main/java/ananta/api/SearchCriteria.java:382-400 | the first clause that cannot be resolved decides the error |
| Criteria.CompilePrefixOk | src/main/java/ananta/api/SearchCriteria.java:382-400 | a list whose every clause resolves compiles |
| Criteria.CompileIgnoresFirstFlag | src/main/java/ananta/api/SearchCriteria.java:388-392 | the first clause's AND/OR flag is never read |
| Criteria.LeftFoldWithoutPrecedence | src/main/java/ananta/api/SearchCriteria.java:382-400 | `[A, or B, and C]` folds to `and(or(A, B), C)` and keeps a row exactly when (A or B) and C hold |
| Criteria.FieldValueMapKeys | src/main/java/ananta/api/SearchCriteria.java:483-491 | after n puts the keys are the first n field names |
| Criteria.FieldValueMapLastWins | src/main/java/ananta/api/SearchCriteria.java:483-491 | a repeated field name maps to the value of its last copied occurrence |
| Criteria.LastFieldDropped | src/main/java/ananta/api/SearchCriteria.java:483-491 | the last selected field is never copied, and with at most one field the map is empty |
| Criteria.GetObjectFrom | src/main/java/ananta/api/SearchCriteria.java:483-491 | succeeds exactly when the row has a value for every copied field, giving the map of the first `n - 1` fields; otherwise the index error |
| Criteria.SearchCriteria.constructor | src/main/java/ananta/api/SearchCriteria.java:53-58 | a fresh criteria with an empty joiner, no clauses and no page |
| Criteria.SearchCriteria.Select | src/main/java/ananta/api/SearchCriteria.java:60-63 | a null class throws; otherwise a fresh, empty criteria returning that class |
| Criteria.SearchCriteria.SelectFrom | src/main/java/ananta/api/SearchCriteria.java:66-69 | `select` then `from`: a null class throws; otherwise a fresh criteria over the given schema and registry, with no clauses and no page, whose root point is the class under its `@Table` name, or the table-name error |
| Criteria.SearchCriteria.TableClass | src/main/java/ananta/api/SearchCriteria.java:103-105 | the registered entity of a table name, absent exactly when the name is null or unregistered |
| Criteria.SearchCriteria.From | src/main/java/ananta/api/SearchCriteria.java:72-77 | adds the class under its `@Table` name, or fails with the table-name error and changes nothing |
| Criteria.SearchCriteria.FromAs | src/main/java/ananta/api/SearchCriteria.java:79-84 | adds the class under the given alias |
| Criteria.SearchCriteria.FromTable | src/main/java/ananta/api/SearchCriteria.java:88-93 | a null name throws; otherwise adds the registered class (possibly absent) under the table name |
| Criteria.SearchCriteria.FromTableAs | src/main/java/ananta/api/SearchCriteria.java:97-101 | a null name throws; otherwise adds the registered class under the alias |
| Criteria.SearchCriteria.Join | src/main/java/ananta/api/SearchCriteria.java:108-114 | the same effect as `from(clazz)` |
| Criteria.SearchCriteria.JoinAs | src/main/java/ananta/api/SearchCriteria.java:117-121 | the same effect as `from(clazz, as)` |
| Criteria.SearchCriteria.JoinTable | src/main/java/ananta/api/SearchCriteria.java:124-126 | `joinUsingTableName(tableName, tableName)` |
| Criteria.SearchCriteria.JoinTableAs | src/main/java/ananta/api/SearchCriteria.java:129-131 | `joinUsingTableName(tableName, as)` |
| Criteria.SearchCriteria.JoinUsingTableName | src/main/java/ananta/api/SearchCriteria.java:133-144 | a registered table joins its entity; otherwise the last point's field that names the table is joined, or the table-not-found error; NullPointer without a root or once any join exists |
| Criteria.SearchCriteria.TableJoinOf | src/main/java/ananta/api/SearchCriteria.java:189-203 | null key throws; an unknown alias gives can't-find-table; a point without a type throws; otherwise succeeds exactly when a non-static field answers to the column, with the alias kept and the first such field's name as column, else can't-find-column |
| Criteria.SearchCriteria.AddClause | src/main/java/ananta/api/SearchCriteria.java:177-185 | resolves the key and appends exactly one clause, or fails and leaves the list as it was |
| Criteria.SearchCriteria.WhereAll | src/main/java/ananta/api/SearchCriteria.java:174-187 | null key throws; a null value appends nothing; otherwise one AND clause for the resolved key |
| Criteria.SearchCriteria.WhereString | src/main/java/ananta/api/SearchCriteria.java:223-236 | null key throws; a blank value appends nothing; otherwise one AND clause |
| Criteria.SearchCriteria.WhereNumber | src/main/java/ananta/api/SearchCriteria.java:238-250 | null key throws; a null value appends nothing; otherwise one AND clause |
| Criteria.SearchCriteria.WhereCollection | src/main/java/ananta/api/SearchCriteria.java:252-265 | null key throws; a collection with elements appends nothing; a null or empty one is appended as an AND clause |
| Criteria.SearchCriteria.AndAll | src/main/java/ananta/api/SearchCriteria.java:273-275 | the same effect as `where(key, ForAll, value)` |
| Criteria.SearchCriteria.AndString | src/main/java/ananta/api/SearchCriteria.java:277-279 | the same effect as `where(key, ForString, value)` |
| Criteria.SearchCriteria.AndNumber | src/main/java/ananta/api/SearchCriteria.java:281-283 | the same effect as `where(key, ForNumber, value)` |
| Criteria.SearchCriteria.AndCollection | src/main/java/ananta/api/SearchCriteria.java:285-287 | the same effect as `where(key, ForCollection, values)` |
| Criteria.SearchCriteria.OrAll | src/main/java/ananta/api/SearchCriteria.java:290-302 | null key throws; a null value appends nothing; otherwise one OR clause |
| Criteria.SearchCriteria.OrString | src/main/java/ananta/api/SearchCriteria.java:305-318 | null key throws; a blank value appends nothing; otherwise one OR clause |
| Criteria.SearchCriteria.OrNumber | src/main/java/ananta/api/SearchCriteria.java:321-333 | null key throws; a null value appends nothing; otherwise one OR clause |
| Criteria.SearchCriteria.OrCollection | src/main/java/ananta/api/SearchCriteria.java:336-348 | null key throws; a null collection appends nothing; any other, the empty one included, is appended as an OR clause |
| Criteria.SearchCriteria.WithPage | src/main/java/ananta/api/SearchCriteria.java:351-354 | stores the page request as given, null included |
| Criteria.SearchCriteria.WithPageNumber | src/main/java/ananta/api/SearchCriteria.java:357-368 | a null `orderBy` throws and keeps the page; otherwise stores the clamped zero-based index, the size, the direction and `orderBy` |
| Criteria.SearchCriteria.GetPredicate | src/main/java/ananta/api/SearchCriteria.java:382-400 | the loop's result is the left fold `Compile` of the clause list over the current join map |
| Criteria.SearchCriteria.ToList | src/main/java/ananta/api/SearchCriteria.java:371-380 | rebuilds the join map (leaving root and join points as they were, and the map and root handle `initJoinMap` builds), then gives the selections of the result class's column fields from the root and the compiled WHERE predicate, or the first error |
| Criteria.SearchCriteria.ToPage | src/main/java/ananta/api/SearchCriteria.java:407-427 | without a page it fails with pageable-undefined before touching the joiner; otherwise the joiner is rebuilt as by `toList` and the result is the `toList` plan with the page attached |

## Left out

- Running the query is not modelled: `em.createQuery`, `getResultList`, `setFirstResult`/`setMaxResults`, `PageImpl`, and `multiselect`/`where` on the JPA query. `ToList` and `ToPage` return the plan (selections, WHERE predicate, page) that would be handed to JPA.
- `toSet`, `findFirst`, `count` and `existAny` are not modelled. They are that same query run differently. `count` and `existAny` also attach the predicate built for the main query to a second query, which is JPA runtime behaviour.
- The static set-up is not modelled: `init` (the `EntityManager` and the table-name registry scanned from the metamodel) and `configGson`. The registry is a constructor parameter (`entities`), and the constructor's null check on the `EntityManager` is not modelled.
- `ReflectionHelper` is not modelled as code. Class hierarchies, annotation lookup and generic-type extraction are replaced by the `Schema` data, which records for each class its `@Table` name (inherited included) and its fields in ancestor order.
- `TypeHelper.convertFromMapToObject` is not modelled (Gson conversion). `GetObjectFrom` returns the field-to-value map that would be converted.
- `QueryException` messages are not modelled: their formatting and text. Each exception is identified by its `Error` variant only.
- Spring's `PageRequest.of` is reduced to a record. Its checks are not modelled: it rejects a size below 1 and a null, empty or blank sort property (`Assert.hasText`). Its offset computation is not modelled either.
- The "Action not accepted." branch of each operator switch is not modelled. The `ForAll`, `ForString`, `ForNumber` and `ForCollection` enumerations are not among the modelled files; they are assumed to hold exactly the constants the switches handle, so that branch is unreachable in the model. Constants the switches carry commented out (`*_IGNORE_CASE` in WhereClauseForString.java, `NOT_IN` in WhereClauseForCollection.java) are not modelled. Null operators are not modelled either: `checkKeyAndAction`'s null check on the action is represented only for the key.
- Strings are sequences of Unicode scalar values, while Java's `indexOf` and `substring` count UTF-16 code units. Positions after a supplementary character (outside the Basic Multilingual Plane) therefore differ. The surrogate-splitting result of `afterOf`/`substring` is not captured either: Java's `afterOf("😀", "a😀b")` is a lone low surrogate followed by `b`, where the model gives `"b"`. `TableJoin.of` splits at '.', so the parts it produces have the same contents in both.
- Values in the model are texts, integers and booleans. Floating-point numbers and dates are not modelled, and text order is lexicographic by character code, with no database collation.
- How the JPA provider treats invalid input is not modelled: a null or non-entity class in `query.from`, an unknown attribute in `join`/`get`, and a null or empty `IN` list. The handles are symbolic, so these build values. `Eval` takes a null `IN` list to keep no row, and an empty list to keep none.
- Thread safety of the static registries is not modelled.
- The JPA `CriteriaQuery` the builder holds is not modelled. The query is created once in the constructor (SearchCriteria.java:56), and each `toList`/`toPage` call runs `initJoinMap` on it, which calls `query.from` (Joiner.java:54) and so adds one more root. A second `toList` on the same builder therefore queries the cartesian product of two roots. The model's `ToList` rebuilds the join map from scratch and returns the same plan each time, with a single root.
- ForNumber values in the model are integers, texts and booleans ordered as `compareTo` orders them (false before true). Other `Comparable` types are not modelled.
- Joining.Joiner.GetJoinPoint: Joiner.java does not define `getJoinPoint`, although SearchCriteria.java:193 calls it. Its behaviour (blank alias means the root, otherwise the first point carrying the alias) is assumed from its callers.
- TableJoins.WithColumn: TableJoin.java does not define `withColumn`, although SearchCriteria.java:202 calls it. Its behaviour (same alias, new column) is assumed from its caller.
