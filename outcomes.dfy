/** Optional values, the loader's failure kinds and results that carry them. */
module Outcomes {

  datatype Option<T> = None | Some(value: T)

  /** Why an operation of the loader gave up. */
  datatype Error =
    | ManifestInvalid                   // composer.json unreadable, not JSON, or without autoload.psr-4
    | NoPsr4Entry(namespace: string)    // no PSR-4 prefix matches the commands namespace
    | DirectoryUnreadable(dir: string)  // the recursive directory iterator could not open the directory
    | ClassNotFound(className: string)  // `new $class()` on a class that does not exist

  datatype Result<T> = Ok(value: T) | Err(error: Error)
}
