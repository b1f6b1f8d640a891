/** Shared value types of CourseWeaver (types.ts). */
module Types {

  /** A value that may be absent: JavaScript's `undefined` / `null` / missing field. */
  datatype Option<T> = None | Some(value: T)

  /** The GitHub connection settings and the instruction text sent to the generator. */
  datatype AppConfig = AppConfig(
    githubToken: string,
    githubOwner: string,
    githubRepo: string,
    githubBranch: string,
    systemPrompt: string)

  /** `StatusMessage.type`: `'info' | 'success' | 'error' | ''` (`Blank` is the empty tag). */
  datatype StatusKind = Blank | Info | Success | Error

  /** The banner shown in the header: a kind and a text. */
  datatype StatusMessage = StatusMessage(kind: StatusKind, text: string)
}
