/** An optional value: `None` stands for JavaScript's `undefined`/`null`, or for a
    decimal.js constructor that throws on a string it cannot read. */
module Options {

  datatype Option<+T> = None | Some(value: T)
}
