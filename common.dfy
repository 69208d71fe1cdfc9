// Small shared vocabulary: an optional value, used wherever the source
// either produces something or raises.
module Common {

  datatype Option<+T> = None | Some(value: T)

}
