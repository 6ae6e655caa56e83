/** An optional value: a nullable database column, a missing form field, a lookup that found nothing. */
module Optional {

  datatype Option<+T> = None | Some(value: T)
}
