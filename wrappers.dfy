/** The optional value the sampler returns where the C++ code uses std::optional. */
module Wrappers {
  datatype Option<+T> = None | Some(value: T)
}
