/**
 The server-specific half: the tools a service offers and what it answers.

 A service may keep state of its own. It is modelled as a function of everything it has been
 asked to do so far, so that any deterministic service is covered, shared or not.
 */
module Service {
  import opened Wrappers
  import opened Json

  datatype ToolDef = ToolDef(name: string, description: string, inputSchema: Json, annotations: Option<Json>) {
    function ToJson(): Json {
      var base := map["name" := Str(name), "description" := Str(description), "inputSchema" := inputSchema];
      Obj(if annotations.Some? then base["annotations" := annotations.value] else base)
    }
  }

  datatype Content = Text(text: string) | Raw(value: Json) {
    function ToJson(): Json {
      match this
      case Text(t) => Obj(map["type" := Str("text"), "text" := Str(t)])
      case Raw(v) => v
    }
  }

  datatype ToolReply = ToolReply(content: seq<Content>, isError: bool, structured: Option<Json>, toolsListChanged: bool) {
    function ToResultJson(): Json {
      var blocks := seq(|content|, i requires 0 <= i < |content| => content[i].ToJson());
      var base := map["content" := Arr(blocks), "isError" := Bool(isError)];
      Obj(if structured.Some? then base["structuredContent" := structured.value] else base)
    }
  }

  datatype CallError = Tool(message: string) | InvalidParams(message: string) | Internal(message: string)

  /** What a service can be asked to do that may change it. */
  datatype ServiceCall = CallTool(name: string, arguments: Json) | Shutdown

  type History = seq<ServiceCall>
  type CallResult = Result<ToolReply, CallError>

  datatype Service = Service(
    tools: History -> seq<ToolDef>,
    callTool: (History, string, Json) -> CallResult
  )

  /** The configuration the protocol consults. */
  datatype Config = Config(
    name: string,
    version: string,
    instructions: Option<string>,
    title: Option<string>,
    description: Option<string>,
    websiteUrl: Option<string>,
    protocolVersions: seq<string>,
    toolsListChanged: bool
  ) {
    /** The last configured version, or the literal fallback when none is configured. */
    function LatestProtocolVersion(): string {
      if protocolVersions == [] then "2025-11-25" else protocolVersions[|protocolVersions| - 1]
    }
  }
}
