/** The error numbers that the modelled code returns. */
module Errno {
  const ENOENT := 2
  const EEXIST := 17
  const EINVAL := 22
  const ERANGE := 34
}
