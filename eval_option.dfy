/** Python's `None`-or-a-value, as used by the catalogue's optional phases,
    the `--only` argument and a phase's exception. */
module EvalOption {

  datatype Option<T> = None | Some(value: T)
}
