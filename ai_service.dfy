/** `AIService._build_prompt`: the text sent to the model, made of optional
    sections and the user's instructions. */
module AiService {
  import opened Results
  import opened Strings

  /** Python truthiness of an optional string: present and non-empty. */
  predicate Truthy(s: Option<string>) {
    s.Some? && s.value != []
  }

  function ContextSection(context: string): string { "Research Context:\n" + context + "\n" }
  function ContentSection(fileContent: string): string { "Assignment Content:\n" + fileContent + "\n" }
  function Instructions(prompt: string): string { "User Instructions:\n" + prompt }

  /** The sections are joined with a line break, in the order context, file
      content, instructions; an absent or empty section is skipped. The
      instructions always close the prompt, and the prompt opens with the
      research context exactly when there is one. */
  method BuildPrompt(prompt: string, fileContent: Option<string>, context: Option<string>) returns (full: string)
    ensures EndsWith(full, Instructions(prompt))
    ensures Truthy(context) <==> StartsWith(full, "Research Context:\n")
    ensures !Truthy(context) && !Truthy(fileContent) ==> full == Instructions(prompt)
    ensures Truthy(context) && !Truthy(fileContent) ==>
      full == ContextSection(context.value) + "\n" + Instructions(prompt)
    ensures !Truthy(context) && Truthy(fileContent) ==>
      full == ContentSection(fileContent.value) + "\n" + Instructions(prompt)
    ensures Truthy(context) && Truthy(fileContent) ==>
      full == ContextSection(context.value) + "\n" + ContentSection(fileContent.value) + "\n" + Instructions(prompt)
  {
    var parts: seq<string> := [];
    if Truthy(context) {
      parts := parts + [ContextSection(context.value)];
    }
    if Truthy(fileContent) {
      parts := parts + [ContentSection(fileContent.value)];
    }
    parts := parts + [Instructions(prompt)];
    full := JoinLines(parts);
    Layout(parts, prompt);
    if Truthy(context) {
      assert StartsWith(full, "Research Context:\n") by {
        var h := "Research Context:\n";
        Regroup(h, context.value, "\n");
        Concat(h, context.value + "\n");
        JoinLinesStartsWith(parts);
        StartsWithTrans(full, parts[0], h);
      }
    } else {
      assert full[0] == parts[0][0] != 'R';
    }
  }

  /** Helper facts about the joined parts: the first character and the
      closing instructions. */
  lemma Layout(parts: seq<string>, prompt: string)
    requires 1 <= |parts| <= 3 && parts[|parts| - 1] == Instructions(prompt)
    requires forall i :: 0 <= i < |parts| ==> parts[i] != []
    ensures JoinLines(parts) != [] && JoinLines(parts)[0] == parts[0][0]
    ensures EndsWith(JoinLines(parts), Instructions(prompt))
    ensures |parts| == 1 ==> JoinLines(parts) == parts[0]
    ensures |parts| == 2 ==> JoinLines(parts) == parts[0] + "\n" + parts[1]
    ensures |parts| == 3 ==> JoinLines(parts) == parts[0] + "\n" + parts[1] + "\n" + parts[2]
  {
    var ins := Instructions(prompt);
    if |parts| == 2 {
      assert JoinLines(parts) == parts[0] + "\n" + ins;
      assert (parts[0] + "\n" + ins)[|parts[0]| + 1..] == ins;
    } else if |parts| == 3 {
      assert JoinLines(parts[1..]) == parts[1] + "\n" + ins;
      var j := parts[0] + "\n" + parts[1] + "\n" + ins;
      assert JoinLines(parts) == j;
      assert j[|j| - |ins|..] == ins;
    }
  }
}
