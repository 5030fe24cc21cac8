/** A value that a browser API may hand back as `null`: `getAttribute` on a
    missing attribute, `localStorage.getItem` on a missing key. */
module Optional {

  datatype Option<+T> = None | Some(value: T)
}
