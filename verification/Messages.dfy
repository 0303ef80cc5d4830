/** kernel/message.hpp: what tasks and interrupt handlers send to a task. */
module Messages {
  import Words

  const PIPE_DATA: nat := 16

  datatype Message =
    | TimerTimeout(timeout: nat, value: int)
    | KeyboardPush(keycode: nat)
    | Pipe(data: seq<Words.Byte>)
}
