/** The one failure-carrying datatype the model needs: a step that the
    simulation never takes (an out-of-range node, a departure with nothing in
    service) yields None instead of a state. */
module Options {

  datatype Option<+T> = None | Some(value: T)

}
