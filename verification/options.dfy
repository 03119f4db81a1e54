/** The optional values the bot's Python code expresses with `None`, a missing
    dictionary key, or a falsy lookup result. */
module Options {

  datatype Option<+T> = None | Some(value: T)
}
