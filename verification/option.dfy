/** The optional value the tracer uses for "no intersection" and "no real
    roots" (Rust's `Option`). */
module Optional {

  datatype Option<+T> = None | Some(value: T)

}
