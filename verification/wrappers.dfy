/** Optional values. `None` stands for the `null` an attribute read yields
    when the store holds no entry under the key. */
module Wrappers {

  datatype Option<+T> = None | Some(value: T)

}
