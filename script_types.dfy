/** The records of types.ts: a generated short-video script and its scenes. */
module Types {
  import opened Wrappers

  datatype ScriptScene = ScriptScene(visual: string, voiceover: string)

  /** `postContent`, `hashtags` and `saved` are optional fields: None when absent. */
  datatype Script = Script(
    id: string,
    title: string,
    hook: string,
    scenes: seq<ScriptScene>,
    cta: string,
    postContent: Option<string>,
    hashtags: Option<seq<string>>,
    saved: Option<bool>)
}
