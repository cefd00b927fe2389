/** A Java reference of resource type `R`: `None` stands for `null`. */
module Optional {

  datatype Option<+T> = None | Some(value: T)
}
