/** The optional value the dashboards return when there is nothing to show. */
module Options {

  datatype Option<+T> = None | Some(value: T)
}
