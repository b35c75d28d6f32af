/** The two result types shared by the modules of this project. */
module Wrappers {

  datatype Option<+T> = None | Some(value: T)

  datatype Result<+T, +E> = Ok(value: T) | Err(error: E)

  /**
   * `SysError` of nr32-common/src/error.rs, plus the `NoEnt` used by the filesystem; `Panic` is no error
   * code but stands for a panic of the source.
   */
  datatype SysError = Busy | Again | NoMem | Invalid | TooLong | NoSys | Timeout | NoEnt | Panic
}
