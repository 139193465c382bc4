/** The absent-or-present value the page model uses for "no element found" and
    "no option matched". */
module Optional {

  datatype Option<+T> = None | Some(value: T)
}
