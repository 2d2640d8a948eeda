TestResult.DisplayName,TestResult.Outcome,TestResult.Duration,TestResult.ResourceCount,RandomSeed
NtpServer.Reply (well-formedness),Passed,00:00:00.4444332,1243975,0
NtpServer.Respond (well-formedness),Passed,00:00:00.3294286,923847,0
NtpServer.RunSendsAnswers (correctness),Passed,00:00:00.3103941,1154916,0
NtpServer.StartRaceLosesListening (correctness),Passed,00:00:00.2916365,1303124,0
NtpServer.ReplyPacket (well-formedness),Passed,00:00:00.2605895,68466,0
NtpServer.Step (well-formedness),Passed,00:00:00.2153612,238033,0
NtpServer.Feasible (well-formedness),Passed,00:00:00.2153532,227922,0
NtpServer.ReplyBytes (well-formedness),Passed,00:00:00.1813997,623589,0
NtpServer.ClientReadsReplyLayout (correctness),Passed,00:00:00.1771800,851402,0
NtpServer.Run (well-formedness),Passed,00:00:00.1496430,238090,0
NtpServer.ReplyBody (well-formedness),Passed,00:00:00.1452620,18378,0
NtpServer.OnReceiveData (well-formedness),Passed,00:00:00.1357170,216665,0
NtpServer.ClientReadsReply (well-formedness),Passed,00:00:00.1355254,294386,0
NtpServer.ReplyLayoutBytes (correctness),Passed,00:00:00.1301778,550809,0
NtpServer.Answers (well-formedness),Passed,00:00:00.1267823,204916,0
NtpServer.ReplyParsesBack (correctness),Passed,00:00:00.1234810,309058,0
NtpServer.ClientReadsReply (correctness),Passed,00:00:00.1223452,263968,0
NtpServer.DeafUntilRestarted (correctness),Passed,00:00:00.1178088,303281,0
NtpServer.AtomicStartsKeepListening (correctness),Passed,00:00:00.1142647,325710,0
NtpServer.StoppedServerDrains (well-formedness),Passed,00:00:00.1086345,230676,0
NtpServer.ClientReadsReplyLayout (well-formedness),Passed,00:00:00.1005314,200617,0
NtpServer.EventKeepsListening (well-formedness),Passed,00:00:00.0993334,225636,0
NtpServer.CompletionStep (correctness),Passed,00:00:00.0984434,235353,0
NtpServer.ReplyBytes (correctness),Passed,00:00:00.0983063,201968,0
NtpServer.StoppedServerDrains (correctness),Passed,00:00:00.0981027,286175,0
NtpServer.RunKeepsListening (well-formedness),Passed,00:00:00.0969557,228575,0
NtpServer.ReplyDependsOnlyOnTransmit (correctness),Passed,00:00:00.0952774,221259,0
NtpServer.WorkingServerRearms (well-formedness),Passed,00:00:00.0942720,230606,0
NtpServer.StartRaceLosesListening (well-formedness),Passed,00:00:00.0915469,233144,0
NtpServer.StoppedServerBound (correctness),Passed,00:00:00.0889324,236009,0
NtpServer.WorkingServerRearms (correctness),Passed,00:00:00.0789146,281648,0
NtpServer.ReplyDependsOnlyOnTransmit (well-formedness),Passed,00:00:00.0709129,186251,0
NtpServer.EventKeepsListening (correctness),Passed,00:00:00.0691346,237407,0
NtpServer.RunKeepsListening (correctness),Passed,00:00:00.0688696,246526,0
NtpServer.ReplyParsesBack (well-formedness),Passed,00:00:00.0676478,185531,0
NtpServer.RunSendsAnswers (well-formedness),Passed,00:00:00.0669335,229495,0
NtpServer.AtomicStartsKeepListening (well-formedness),Passed,00:00:00.0653128,232439,0
NtpServer.DeafUntilRestarted (well-formedness),Passed,00:00:00.0637438,230872,0
NtpServer.CompletionStep (well-formedness),Passed,00:00:00.0632374,224459,0
NtpServer.StoppedServerBound (well-formedness),Passed,00:00:00.0601076,224127,0
NtpServer.ReplyLayoutBytes (well-formedness),Passed,00:00:00.0543228,55929,0
NtpServer.TransmitBytes (correctness),Passed,00:00:00.0482844,169814,0
NtpServer.ReplyPacketHeader (correctness),Passed,00:00:00.0422185,135961,0
NtpServer.StartFirstHalf (well-formedness),Passed,00:00:00.0400651,18480,0
NtpServer.Initial (well-formedness),Passed,00:00:00.0361968,3717,0
NtpServer.StartSecondHalf (well-formedness),Passed,00:00:00.0332151,18922,0
NtpServer.Start (well-formedness),Passed,00:00:00.0201070,25782,0
NtpServer.Rearm (well-formedness),Passed,00:00:00.0184460,15714,0
NtpServer.TransmitBytes (well-formedness),Passed,00:00:00.0138694,32491,0
NtpServer.AtomicStarts (well-formedness),Passed,00:00:00.0135220,13404,0
NtpServer.Stop (well-formedness),Passed,00:00:00.0099667,9804,0
NtpServer.ZeroField16 (correctness),Passed,00:00:00.0052199,9931,0
NtpServer.ZeroField16 (well-formedness),Passed,00:00:00.0051986,9673,0
