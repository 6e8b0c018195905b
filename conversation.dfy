/** One conversation as the bot passes it to the completion provider: an
    ordered list of role-tagged turns, `{"content": ..., "role": ...}`. */
module Conversation {

  datatype Role = System | User | Assistant

  datatype Turn = Turn(content: string, role: Role)
}
