/** Facts about the host that both the rotation hook and the composer consult. */
module Host {

  /** The value of `Platform.OS`: iOS, Android, or any other target (web, desktop). */
  datatype Platform = IOS | Android | OtherPlatform

  /** A value that may be absent, as an optional property or callback result is. */
  datatype Option<T> = None | Some(value: T)
}
