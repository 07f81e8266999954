/** An optional value: `None` stands for an attribute or element the page does not have
    (JavaScript's `undefined` / `null`). */
module Options {

  datatype Option<+T> = None | Some(value: T)

}
