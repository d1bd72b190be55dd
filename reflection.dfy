/** The schema the library reads through java.lang.reflect, given here as
    plain immutable data: for each entity class, its @Table name (searched
    over the class and its ancestors) and its fields (declared fields of the
    class and then of each ancestor) with their persistence annotations. */
module Reflection {
  import opened Base

  type ClassName = string

  /** The persistence annotations the library inspects, with the attribute
      it reads from each; any other annotation is `OtherAnnotation`. */
  datatype Annotation =
    | ColumnAnnotation(name: string)
    | JoinTableAnnotation(name: string)
    | JoinColumnAnnotation(name: string)
    | ManyToManyAnnotation(mappedBy: string)
    | ManyToOneAnnotation
    | OneToManyAnnotation
    | OneToOneAnnotation
    | OtherAnnotation(typeName: string)

  /** One `java.lang.reflect.Field`. `isPrimitive` covers the primitive types
      and their wrapper classes; `acceptsString` is
      `type.isAssignableFrom(String.class)`; `elementType` is the collection's
      generic argument when it is a plain class. */
  datatype FieldInfo = FieldInfo(
    name: string,
    declaredType: ClassName,
    isStatic: bool,
    isPrimitive: bool,
    acceptsString: bool,
    isCollection: bool,
    elementType: Option<ClassName>,
    annotations: seq<Annotation>)

  datatype ClassInfo = ClassInfo(tableAnnotation: Option<string>, fields: seq<FieldInfo>)

  /** Every entity class the program knows, by name. */
  type Schema = map<ClassName, ClassInfo>

  /** `getFieldsOf`: all fields, static ones included; none for null. */
  function FieldsOf(schema: Schema, cls: Option<ClassName>): seq<FieldInfo> {
    if cls.Some? && cls.value in schema then schema[cls.value].fields else []
  }

  /** The non-static fields of `fields`, in order. */
  function NonStatic(fields: seq<FieldInfo>): (r: seq<FieldInfo>)
    ensures |r| <= |fields|
    ensures forall f :: f in r <==> f in fields && !f.isStatic
  {
    if fields == [] then []
    else if fields[0].isStatic then NonStatic(fields[1..])
    else [fields[0]] + NonStatic(fields[1..])
  }

  /** Filtering keeps the declaration order and every occurrence: the
      non-static fields of two runs of fields are those of the first run
      followed by those of the second. */
  lemma {:induction false} NonStaticAppend(a: seq<FieldInfo>, b: seq<FieldInfo>)
    ensures NonStatic(a + b) == NonStatic(a) + NonStatic(b)
    decreases |a|
  {
    if a == [] {
      assert a + b == b;
    } else {
      assert (a + b)[0] == a[0] && (a + b)[1..] == a[1..] + b;
      NonStaticAppend(a[1..], b);
    }
  }

  /** A single field is kept exactly when it is not static. */
  lemma NonStaticSingle(f: FieldInfo)
    ensures NonStatic([f]) == if f.isStatic then [] else [f]
  {
    assert [f][1..] == [];
  }

  /** `getNonStaticFieldsOf`. */
  function NonStaticFieldsOf(schema: Schema, cls: Option<ClassName>): seq<FieldInfo> {
    NonStatic(FieldsOf(schema, cls))
  }

  /** The @Table name of a class, if it or an ancestor carries one. */
  function TableAnnotationOf(schema: Schema, cls: Option<ClassName>): Option<string> {
    if cls.Some? && cls.value in schema then schema[cls.value].tableAnnotation else None
  }

  /** `getTypeOf(field)`: a collection field gives its element type (absent
      when the generic argument cannot be read), any other field its
      declared type. */
  function TypeOf(f: FieldInfo): (r: Option<ClassName>)
    ensures !f.isCollection ==> r == Some(f.declaredType)
    ensures f.isCollection ==> r == f.elementType
  {
    if f.isCollection then f.elementType else Some(f.declaredType)
  }

  /** The name of the field's @Column annotation, if it has one. */
  function ColumnName(f: FieldInfo): Option<string> {
    match FindFirst(f.annotations, (a: Annotation) => a.ColumnAnnotation?)
    case Some(a) => Some(a.name)
    case None => None
  }

  /** The name of the field's @JoinTable annotation, if it has one. */
  function JoinTableName(f: FieldInfo): Option<string> {
    match FindFirst(f.annotations, (a: Annotation) => a.JoinTableAnnotation?)
    case Some(a) => Some(a.name)
    case None => None
  }

  /** The name of the field's @JoinColumn annotation, if it has one. */
  function JoinColumnName(f: FieldInfo): Option<string> {
    match FindFirst(f.annotations, (a: Annotation) => a.JoinColumnAnnotation?)
    case Some(a) => Some(a.name)
    case None => None
  }

  /** The `mappedBy` of the field's @ManyToMany annotation, if it has one. */
  function ManyToManyMappedBy(f: FieldInfo): Option<string> {
    match FindFirst(f.annotations, (a: Annotation) => a.ManyToManyAnnotation?)
    case Some(a) => Some(a.mappedBy)
    case None => None
  }
}
