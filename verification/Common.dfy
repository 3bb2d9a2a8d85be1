/** Result and option types shared by the models, and the error numbers they return. */
module Common {

  datatype Option<+T> = None | Some(value: T)

  /** The error numbers the modelled functions return, without their sign. */
  datatype Errno = EPERM | ENOENT | E2BIG | ENOMEM | EINVAL | ERANGE | EIO

  /** A C function that returns a value, or a negative error number. */
  datatype Result<+T> = Ok(value: T) | Err(error: Errno)
}
