/** CriteriaHelper: table names of entity classes and the classification of
    fields into plain columns and relationship (mapping) columns. */
module CriteriaHelper {
  import opened Base
  import opened Reflection

  /** The annotations that make a field a relationship. */
  predicate IsRelationship(a: Annotation) {
    a.ManyToManyAnnotation? || a.ManyToOneAnnotation? || a.OneToManyAnnotation? ||
    a.OneToOneAnnotation? || a.JoinColumnAnnotation?
  }

  /** `getTableNameOf`: the @Table name. For a class without one the
      exception's message reads the class's simple name, which fails first
      when the class is null. */
  function GetTableNameOf(schema: Schema, clazz: Option<ClassName>): (r: Result<string>)
    ensures r.Ok? <==> TableAnnotationOf(schema, clazz).Some?
    ensures r.Ok? ==> Some(r.value) == TableAnnotationOf(schema, clazz)
    ensures r.Err? ==> r.error == (if clazz.None? then NullPointer else MissingTableAnnotation)
  {
    match TableAnnotationOf(schema, clazz)
    case Some(name) => Ok(name)
    case None => if clazz.None? then Err(NullPointer) else Err(MissingTableAnnotation)
  }

  /** `tableNameOf`: the @Table name, or a QueryException whose message does
      not read the class. */
  function TableNameOf(schema: Schema, entity: Option<ClassName>): (r: Result<string>)
    ensures r.Ok? <==> TableAnnotationOf(schema, entity).Some?
    ensures r.Ok? ==> Some(r.value) == TableAnnotationOf(schema, entity)
    ensures r.Err? ==> r.error == EntityWithoutTable
  {
    match TableAnnotationOf(schema, entity)
    case Some(name) => Ok(name)
    case None => Err(EntityWithoutTable)
  }

  /** `isColumn`. */
  predicate IsColumn(f: FieldInfo) {
    if f.isPrimitive || f.acceptsString then true
    else if f.isCollection then false
    else forall i :: 0 <= i < |f.annotations| ==> !IsRelationship(f.annotations[i])
  }

  /** `isMappingColumn`. */
  predicate IsMappingColumn(f: FieldInfo) {
    exists i :: 0 <= i < |f.annotations| && IsRelationship(f.annotations[i])
  }

  /** The three steps of `isColumn`: primitive, wrapper and String-typed
      fields are columns whatever their annotations; other collection fields
      are not; every other field is a column exactly when it is not a
      mapping column. */
  lemma ColumnClassification(f: FieldInfo)
    ensures f.isPrimitive || f.acceptsString ==> IsColumn(f)
    ensures !f.isPrimitive && !f.acceptsString && f.isCollection ==> !IsColumn(f)
    ensures !f.isPrimitive && !f.acceptsString && !f.isCollection ==>
              (IsColumn(f) <==> !IsMappingColumn(f))
  {
  }

  /** A String field carrying a relationship annotation is both a column and
      a mapping column: the two tests are not complements in general. */
  lemma ColumnAndMappingOverlap(f: FieldInfo)
    requires f.acceptsString && |f.annotations| > 0 && f.annotations[0] == ManyToOneAnnotation
    ensures IsColumn(f) && IsMappingColumn(f)
  {
  }

  /** `getEntityOf`: the declared type of a plain field; the element type of
      a collection field, or a QueryException when it cannot be read. */
  function GetEntityOf(f: FieldInfo): (r: Result<ClassName>)
    ensures !f.isCollection ==> r == Ok(f.declaredType)
    ensures f.isCollection ==> (r.Ok? <==> f.elementType.Some?)
    ensures r.Ok? ==> Some(r.value) == TypeOf(f)
    ensures r.Err? ==> r.error == NoEntityOfField(f.name)
  {
    if !f.isCollection then Ok(f.declaredType)
    else match f.elementType
      case Some(c) => Ok(c)
      case None => Err(NoEntityOfField(f.name))
  }
}
