/** JoinPoint: one table of the join chain, named by its alias, known by its
    entity class, by the field that reaches it, or by both. The record is
    immutable; builder fields left unset are absent. */
module JoinPoints {
  import opened Base
  import opened Reflection

  datatype JoinPoint = JoinPoint(
    tableName: Option<string>,
    clazz: Option<ClassName>,
    field: Option<FieldInfo>)

  /** `getType`: the class of the rows this point stands for. Without a
      field it is the point's class, possibly absent; with a field the class
      is ignored and the field decides. */
  function GetType(jp: JoinPoint): (r: Option<ClassName>)
    ensures jp.field.None? ==> r == jp.clazz
    ensures jp.field.Some? && !jp.field.value.isCollection ==> r == Some(jp.field.value.declaredType)
    ensures jp.field.Some? && jp.field.value.isCollection ==> r == jp.field.value.elementType
  {
    if jp.field.None? then jp.clazz else TypeOf(jp.field.value)
  }

  /** Two points reached by the same field have the same type, whatever
      classes they were built with. */
  lemma GetTypeIgnoresClassWithField(a: JoinPoint, b: JoinPoint)
    requires a.field.Some? && a.field == b.field
    ensures GetType(a) == GetType(b)
  {
  }
}
