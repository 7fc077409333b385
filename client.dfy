/**
 * The SSH client as the core sees it: an oracle that answers each remote
 * command with (stdout, stderr, exit code), and a trace of every call made
 * on it. Transport, host-key handling and the threaded piping live behind
 * this interface and are not modelled.
 */
module SshClient {
  import opened Bytes

  datatype ExecResult = ExecResult(out: Bytes, err: Bytes, code: int)

  /** What one remote machine does: whether connecting succeeds, and how it answers commands. */
  datatype RemoteHost = RemoteHost(connects: bool, respond: string -> ExecResult)

  /** One call made on the client, recorded in order. */
  datatype Call =
    | LoadHostKeys(path: string)
    | SetAutoAddPolicy
    | Connect(hostname: string, username: string, keyFile: string)
    | SaveHostKeys(path: string)
    | SendFile(localPath: string, remotePath: string)
    | SendFileObj(data: string, remotePath: string)
    | Chmod(path: string, mode: string)
    | Exec(command: string)
    | Rm(path: string)
    | Close

  class Client {
    const remote: RemoteHost
    var calls: seq<Call>

    constructor (remote: RemoteHost)
      ensures this.remote == remote && calls == []
    {
      this.remote := remote;
      calls := [];
    }

    method LoadHostKeys(path: string)
      modifies this
      ensures calls == old(calls) + [Call.LoadHostKeys(path)]
    {
      calls := calls + [Call.LoadHostKeys(path)];
    }

    method SetAutoAddPolicy()
      modifies this
      ensures calls == old(calls) + [Call.SetAutoAddPolicy]
    {
      calls := calls + [Call.SetAutoAddPolicy];
    }

    /** Paramiko raises when the connection or the host-key check fails; `ok` is false then. */
    method Connect(hostname: string, username: string, keyFile: string) returns (ok: bool)
      modifies this
      ensures ok == remote.connects
      ensures calls == old(calls) + [Call.Connect(hostname, username, keyFile)]
    {
      calls := calls + [Call.Connect(hostname, username, keyFile)];
      ok := remote.connects;
    }

    method SaveHostKeys(path: string)
      modifies this
      ensures calls == old(calls) + [Call.SaveHostKeys(path)]
    {
      calls := calls + [Call.SaveHostKeys(path)];
    }

    method SendFile(localPath: string, remotePath: string)
      modifies this
      ensures calls == old(calls) + [Call.SendFile(localPath, remotePath)]
    {
      calls := calls + [Call.SendFile(localPath, remotePath)];
    }

    method SendFileObj(data: string, remotePath: string)
      modifies this
      ensures calls == old(calls) + [Call.SendFileObj(data, remotePath)]
    {
      calls := calls + [Call.SendFileObj(data, remotePath)];
    }

    method Chmod(path: string, mode: string)
      modifies this
      ensures calls == old(calls) + [Call.Chmod(path, mode)]
    {
      calls := calls + [Call.Chmod(path, mode)];
    }

    /** `exec_command_output_only`: run a command with no input. */
    method ExecCommandOutputOnly(command: string) returns (r: ExecResult)
      modifies this
      ensures r == remote.respond(command)
      ensures calls == old(calls) + [Call.Exec(command)]
    {
      calls := calls + [Call.Exec(command)];
      r := remote.respond(command);
    }

    method Rm(path: string)
      modifies this
      ensures calls == old(calls) + [Call.Rm(path)]
    {
      calls := calls + [Call.Rm(path)];
    }

    method Close()
      modifies this
      ensures calls == old(calls) + [Call.Close]
    {
      calls := calls + [Call.Close];
    }
  }
}
